# AgentOrbit: a verified model of the proxy and the processing service

AgentOrbit puts a proxy between agents and LLM providers and a processing service behind it. This
project models the parts of both whose correctness depends on more than one function - masking and its
streaming inverse, the shutdown of the span dispatcher, the verification cache, the rate limiters, JSON
scanning, pagination, text cutting, sessions and quotas, write batching - and proves what they keep over
all inputs, all runs and all interleavings.

`dafny verify dfyconfig.toml` checks everything.

| module | models |
|---|---|
| `ByteStrings`, `Utf8`, `Decimal`, `Options` | byte strings, UTF-8 decoding against section 3 of RFC 3629, `bytes.ReplaceAll`, decimal text |
| `Masking`, `RoundTrip`, `Storage`, `Phone` | placeholders, `ApplyMasking`, `UnmaskContent`, the storage re-mask loop, the phone preset |
| `NestedMasks`, `FailingInputs` | rules that match into earlier placeholders; requests and streams that go wrong |
| `Streaming`, `Forwarding` | the safe cutoff, `unmaskStreaming`, the SSE loop of the proxy, the tail ring |
| `Dispatcher`, `DispatchDrops`, `WaitReuse` | `SpanDispatcher`: any number of `Dispatch` calls, workers and `Drain`, step by step; what it drops; when its wait group panics |
| `AuthCaching`, `AuthRuns`, `AuthUse` | `AuthCache` as an object, any number of lookups and sweeps interleaved, and what the cache serves and gives up |
| `SlidingWindow`, `KeyLimiter`, `EmailLimiter`, `IngestLimiter`, `IngestOverflow` | sliding-window limiters against a full log |
| `JsonTokens` | finding the API key of an ingest body in a token stream |
| `Pagination` | keyset pagination of sessions, from the handler's cursor to the query |
| `TextCut` | common prefixes, system blocks and truncation at rune boundaries |
| `Sessions`, `Quota` | ingest, closure and upgrade of sessions; the monthly counter |
| `Batcher` | the last-used batcher |

Code that updates state is modelled by classes and loops over arrays, maps and sequences, each proved
against a function of the old state; the laws are lemmas about those functions. Concurrency is modelled by
state machines whose steps are the atomic operations and critical sections of the source, taken in any
order by any number of threads. Go's regular expression engine and `strings.ToUpper` are parameters; the
engine is only assumed to return matches in bounds, in order and disjoint, and the phone preset is a
concrete matcher. Readers are sequences of chunks, writers accept a fixed number of bytes and then fail,
clocks are parameters.

## Where the code does less than it is meant to

Each of these has a lemma with an input that fails, beside the exact condition or the hypothesis under
which the code keeps its promise.

- Shutting down can panic: a call that passed its first check before `Drain` flipped the flag may call
  `Add` while `Wait` has a waiter and the counter is zero, or before `Wait` has looked again. Nothing is
  ever sent on the closed channel, but the wait group itself panics (`WaitReuse.TwoCallsPanic`,
  `WaitReuse.TwoCallsReuse`; exactly when: `WaitReuse.PanicsExactly`, `WaitReuse.DrainSafeExactly`).
- The round trip fails when the request already holds one of its placeholders
  (`FailingInputs.PlaceholderInRequest`; exactly when: `RoundTrip.RoundTripExactly`,
  `Phone.PhoneRoundTrip`) and when a rule matches into an earlier placeholder
  (`FailingInputs.DigitsBreakPhone`; exactly when: `NestedMasks.ClearExactly`).
- Of more than 1000 numbers the later ones are neither masked nor kept out of storage
  (`FailingInputs.ManyNumbersLeak`; exactly when: `Phone.PhoneMaskedLeaks`, `Phone.PhoneStoredExactly`).
- Streaming and whole-body unmasking differ when an original is part of a later placeholder
  (`FailingInputs.TwoReadsDiffer`; exactly when: `Streaming.StreamsExactly`). The phone preset never does
  this.
- The streaming unmasker holds back more than the beginning of one placeholder: every beginning that
  directly follows another waits with it, so of a body of opening brackets nothing is written before its
  end (`Streaming.OpeningBracketsWait`; exactly what waits: `Streaming.HoldsBackBeginnings`).
- `sort_order=asc` without `sort_by` makes the service issue one kind of cursor and the handler expect the
  other, so the second page is refused (`Pagination.AscendingRefused`); and the text of a `total_cost_usd`
  cursor has six of the column's eight decimals, so rows can be skipped (`Pagination.CostPagingSkips`;
  exactly when: `Pagination.PagingExactly`).
- The ingest limiter forgets a bucket after five minutes, evicts at capacity, and reads its clock before it
  takes its lock: each lets a window hold one request too many, for every limit (for the clock: of two or
  more) and every capacity (`IngestOverflow.LongWindowOverflows`, exactly when:
  `IngestOverflow.BoundedExactly`; `IngestOverflow.EvictionOverflows`; `IngestOverflow.LateLockOverflows`).
- The closure cron reads three times before it writes; a span that arrives in between can make it close a
  half-successful session as failed (`Sessions.LateSpanMislabels`, `Sessions.ClosedAsItsSpansSay`).

Two comments say something else than the code, which is followed: `intelligence.go:103` asks for 100
characters where the code counts bytes, and `intelligence.go:731-735` promises a head and a tail of exact
length where the code gives up to three bytes less each.

## Model

| member | source | states |
|---|---|---|
| ByteStrings.ReplaceDistributes | proxy/internal/masking/masker.go:168 | replacing in a concatenation is replacing in both parts when the first part does not end inside a possible match |
| ByteStrings.SafeAfterReplace | proxy/internal/masking/masker.go:165-171 | a text that ends in no partial later placeholder still does not after an earlier replacement, unless the restored original could begin that placeholder |
| ByteStrings.ReplaceCreatesNothing | proxy/internal/masking/masker.go:168 | every occurrence of a text after a replacement was there before, when it cannot overlap the inserted text; the pattern itself is gone |
| ByteStrings.ReplaceSkips | proxy/internal/masking/masker.go:168 | the leftmost scan copies a stretch in which no match starts |
| Decimal.ValueOfFormat | proxy/internal/masking/masker.go:142 | a number printed with `%d` reads back as itself |
| Masking.UnmaskContent | proxy/internal/masking/masker.go:165-171 | one `ReplaceAll` per entry, in order |
| Masking.UnmaskedSplit | proxy/internal/masking/masker.go:165-171 | unmasking with two lists one after the other is unmasking with their concatenation |
| Masking.UnmaskedAbsent | proxy/internal/masking/masker.go:165-171 | a text without any of the placeholders is left alone |
| Masking.PlaceholderInjective | proxy/internal/masking/masker.go:133-142 | `[NAME_n]` determines NAME and n, whatever the name |
| Masking.PlaceholdersAreNotNested | proxy/internal/masking/masker.go:142 | no placeholder with a bracket-free name is an infix of another |
| Masking.OnlyOccurrence | proxy/internal/masking/masker.go:142 | between text without `]` and text without `[` the only placeholder that occurs is the one that was put there |
| Masking.BracketFreeNoClash | proxy/internal/masking/masker.go:165-171 | a bracket-free original overlaps a placeholder only by lying inside it |
| Masking.Matches | proxy/internal/masking/masker.go:109-116 | ordered, disjoint, in-bounds matches, at most 1000 |
| Masking.IndexIn | proxy/internal/masking/masker.go:121-149 | the number of an original is its place among the distinct originals |
| Masking.OriginalsCover | proxy/internal/masking/masker.go:136-149 | every match is among the distinct originals |
| Masking.OriginalsExact | proxy/internal/masking/masker.go:136-149 | the originals are pairwise different and each is some match |
| Masking.Number | proxy/internal/masking/masker.go:139-149 | a seen original keeps its placeholder, a new one gets the next number and an entry |
| Masking.RewriteMatches | proxy/internal/masking/masker.go:121-161 | the loop rewrites the text match by match and collects one entry per distinct original |
| Masking.ApplyRegexMask | proxy/internal/masking/masker.go:115-162 | the text with every match replaced by the placeholder of its original, and the entries; the content itself without a match |
| Masking.LabelExactly | proxy/internal/masking/masker.go:129-134 | the name inside placeholders is the rule's name, "rule" for none, with underscores for spaces, in upper case |
| Masking.CompilesExactly | proxy/internal/masking/masker.go:69-83 | exactly the rules with an empty or rejected pattern are left out; the others keep their order, their names and the finders of their patterns |
| Masking.MaskingConfig.Compile | proxy/internal/masking/masker.go:69-83 | the compiled rules are those of the configuration in that sense |
| Masking.ApplyMasking | proxy/internal/masking/masker.go:85-107 | applies the rules one after the other and collects all entries; does nothing when off, empty or not compiled |
| Masking.ApplyRules | proxy/internal/masking/masker.go:97-106 | the loop over the rules is the fold over them |
| RoundTrip.ReplaceReveals | proxy/internal/masking/masker.go:165-171 | one `ReplaceAll` turns exactly the tokens of its placeholder back into originals and touches nothing else |
| RoundTrip.UnmaskRestores | proxy/internal/masking/masker.go:165-171 | the whole chain turns every token back, in any order of entries |
| RoundTrip.RuleEntries | proxy/internal/masking/masker.go:121-149 | the i-th entry of a rule carries the i-th distinct original and `[NAME_i]`: a bijection |
| RoundTrip.EntryOfRule | proxy/internal/masking/masker.go:129-149 | entry i of a rule has the rule's name, "rule" for none, the i-th distinct original and the placeholder of number i + 1 |
| RoundTrip.EntriesWellFormed | proxy/internal/masking/masker.go:97-106 | over all rules placeholders are bracketed and pairwise different when the sanitized names are bracket-free and distinct |
| RoundTrip.MaskedPieces | proxy/internal/masking/masker.go:88-107 | the masked text consists of untouched original text and placeholders of matched text, over any number of rules |
| RoundTrip.UnmaskUndoesMask | proxy/internal/masking/masker.go:85-171 | `UnmaskContent(ApplyMasking(c)) == c` for any number of rules with bracket-free, distinct names when no generated placeholder occurs in c and no rule matches into an earlier placeholder |
| RoundTrip.ChainRemovesAll | proxy/internal/masking/masker.go:165-171 | after a chain of replacements that cannot re-create earlier patterns none of the patterns is left |
| RoundTrip.NoPlaceholderRemains | proxy/internal/masking/masker.go:164-171 | unmasking any text leaves none of the request's placeholders in it |
| RoundTrip.PlainMatchesClear | proxy/internal/masking/masker.go:100-104 | a rule whose originals are plain and no part of an earlier placeholder matches into none |
| RoundTrip.RoundTripExactly | proxy/internal/masking/masker.go:85-171 | for plain originals that are no part of an earlier placeholder, the round trip holds if and only if no generated placeholder occurs in the request |
| NestedMasks.ReplaceParts | proxy/internal/masking/masker.go:168 | replacement works part by part where no occurrence crosses |
| NestedMasks.RuleAround | proxy/internal/masking/masker.go:136-161 | what a rule makes of the text around a placeholder that it breaks or that is broken |
| NestedMasks.StuckFirst | proxy/internal/masking/masker.go:165-171 | a placeholder broken by later rules is left over after unmasking |
| NestedMasks.UnclearSticks | proxy/internal/masking/masker.go:97-106 | if some rule matches into an earlier placeholder, a broken one stands in the masked text |
| NestedMasks.ClearExactly | proxy/internal/masking/masker.go:85-171 | for plain originals and placeholders absent from the request, the round trip holds if and only if no rule matches into a placeholder of an earlier rule |
| RoundTrip.RemaskOutput | proxy/internal/handler/proxy.go:751-756 | one `ReplaceAll` of original by placeholder per entry, in order |
| RoundTrip.NoOriginalStored | proxy/internal/handler/proxy.go:748-756 | after the re-mask loop no entry's original is an infix of the stored output, for every output |
| RoundTrip.NoOriginalStoredExactly | proxy/internal/handler/proxy.go:748-756 | for one entry that holds if and only if the original is not part of its placeholder |
| Storage.MarksOriginals | proxy/internal/handler/proxy.go:753-755 | one `ReplaceAll` of the loop turns copied text into tokens of its entry and touches no placeholder |
| Storage.StoredRestores | proxy/internal/handler/proxy.go:748-756 | for plain originals that are no part of earlier placeholders: unmasking the stored output gives the output back if and only if it held none of the placeholders |
| Phone.PhoneSpans | proxy/internal/masking/masker.go:62-67 | the matches of `\+7\d{10}` are disjoint, ordered and real |
| Phone.PhoneSpansComplete | proxy/internal/masking/masker.go:62-67 | and every position where the pattern matches is among them |
| Phone.NoPlusInPlaceholder | proxy/internal/masking/masker.go:62-67 | `+` never occurs in `[PHONE_n]` |
| Phone.PhoneWellSuited | proxy/internal/masking/masker.go:62-67 | the preset meets every hypothesis of the general theorems, for every text |
| Phone.PhoneEntries | proxy/internal/masking/masker.go:136-149 | the entries are the distinct numbers among the first 1000 matches, numbered from one |
| Phone.PhoneRoundTrip | proxy/internal/masking/masker.go:62-171 | with the preset the round trip holds if and only if the request contains none of `[PHONE_1]` to `[PHONE_k]`, k the number of its distinct masked numbers |
| Phone.PhoneStreams | proxy/internal/handler/sse_helpers.go:37-146 | with the preset streaming equals whole-body unmasking for every stream and chunking, unconditionally |
| Phone.PhoneMaskedNotStored | proxy/internal/handler/proxy.go:748-756 | with the preset no number that was masked is ever stored |
| Phone.PhoneStoredExactly | proxy/internal/handler/proxy.go:748-756 | no number of the request is in any stored output, whatever the provider answers, if and only if every number of it is among its first 1000 matches |
| Storage.PhoneStoredRestores | proxy/internal/handler/proxy.go:748-756 | with the preset that holds for every request and every output |
| Phone.PhoneNeverStored | proxy/internal/handler/proxy.go:748-756 | so none is stored for a request with at most 1000 numbers |
| Phone.PhoneMaskedLeaks | proxy/internal/masking/masker.go:109-162 | the masked text holds a phone number if and only if the request had more than 1000 |
| FailingInputs.ManyNumbersLeak | proxy/internal/masking/masker.go:109-116 | of 1001 different numbers one is left in the masked text, and the last is stored as it is when repeated |
| FailingInputs.PlaceholderInRequest | proxy/internal/masking/masker.go:164-171 | a request that holds `[PHONE_1]` beside a number does not come back |
| FailingInputs.DigitsBreakPhone | proxy/internal/masking/masker.go:100-104 | the phone rule and then a digit rule mask a number as `[PHONE_[N_1]]`, which unmasks to `[PHONE_1]` |
| FailingInputs.TwoReadsDiffer | proxy/internal/handler/sse_helpers.go:112-126 | two entries and two reads for which the client receives `[B` where the whole body unmasks to `x` |
| Streaming.LongestMask | proxy/internal/handler/sse_helpers.go:62-67 | the longest placeholder length |
| Streaming.FindPartial | proxy/internal/handler/sse_helpers.go:87-96 | whether a text ends with a proper prefix of a placeholder |
| Streaming.FindConflict | proxy/internal/handler/sse_helpers.go:81-100 | whether it does for any entry |
| Streaming.FindSafeCutoff | proxy/internal/handler/sse_helpers.go:68-106 | the longest prefix of the pending bytes that ends inside no possible placeholder; everything at end of file |
| Streaming.SafeCutoff | proxy/internal/handler/proxy.go:607-640 | the cutoff is free of conflict and every longer prefix has one |
| Streaming.CutoffGrows | proxy/internal/handler/sse_helpers.go:112-125 | reading more never moves the cutoff back |
| Streaming.UnmaskDistributes | proxy/internal/handler/sse_helpers.go:41-55 | unmasking distributes over a safe cut through the whole chain of replacements, for nonempty placeholders and originals that cannot begin a later one |
| Streaming.StreamingMatchesWhole | proxy/internal/handler/sse_helpers.go:37-146 | for every stream and every way of cutting it into reads the concatenated output is `UnmaskContent` of the whole, for nonempty placeholders and originals that cannot begin a later one |
| Streaming.StreamingIsPrefix | proxy/internal/handler/sse_helpers.go:112-126 | for the same entries: at every moment what was written is a prefix of the unmasked whole, however the stream goes on |
| Streaming.HoldsBackBeginnings | proxy/internal/handler/sse_helpers.go:41-55 | before the end of the stream everything is written but a rest that consists of beginnings of placeholders, one after another; what is written ends in none |
| Streaming.OpeningBracketsWait | proxy/internal/handler/sse_helpers.go:68-106 | that rest has no bound: of a body of opening brackets nothing is written before its end |
| Streaming.SingleEntryStreams | proxy/internal/handler/sse_helpers.go:37-146 | with one entry this needs nothing but a nonempty placeholder |
| Streaming.NestedStreamFails | proxy/internal/handler/sse_helpers.go:37-146 | if an original is part of a later placeholder a two-read stream goes wrong |
| Streaming.StreamsExactly | proxy/internal/handler/sse_helpers.go:37-146 | for distinct placeholders and bracket-free originals every stream is faithful if and only if no original is part of a later placeholder |
| Streaming.EchoRestores | proxy/internal/handler/proxy.go:642-700 | any chunked echo of the masked body streams back as the original body, when the round trip holds and no original can begin a later placeholder |
| Forwarding.AppendRing | proxy/internal/handler/sse_helpers.go:10-35 | the last capLen bytes of the concatenation, in all three cases |
| Forwarding.RingIsTail | proxy/internal/handler/sse_helpers.go:10-35 | folded over any chunks it yields exactly the last min(cap, total) bytes of the stream |
| Forwarding.LastJSONDataLine | proxy/internal/handler/sse_helpers.go:148-163 | the payload of the last line that starts with `data: {`, or "" |
| Forwarding.LastPayloadExactly | proxy/internal/handler/sse_helpers.go:148-163 | what is found is the rest, behind `data: `, of the last line that starts with `data: {`; nothing exactly when no line does |
| Forwarding.TailFindsLastLine | proxy/internal/handler/sse_helpers.go:148-163 | searching the ring finds the line that searching the whole stream finds whenever such a line starts inside the last cap bytes |
| Forwarding.FlushTo | proxy/internal/handler/sse_helpers.go:112-126 | one flush writes the unmasked bytes past what was written, up to the writer's room |
| Forwarding.UnmaskStreaming | proxy/internal/handler/sse_helpers.go:58-146 | the writer receives exactly the streaming output, cut off where it fails, with the count and the error that say so |
| Forwarding.SseForwarder.AppendOutput | proxy/internal/handler/proxy.go:592-605 | the capture is the first maxOutputCapture bytes delivered |
| Forwarding.SseForwarder.Deliver | proxy/internal/handler/proxy.go:650-661 | a piece that does not fit disconnects the client and is not captured |
| Forwarding.SseForwarder.FlushMasked | proxy/internal/handler/proxy.go:642-663 | one flush delivers the bytes behind the cutoff that are new |
| Forwarding.SseForwarder.ForwardMasked | proxy/internal/handler/proxy.go:665-700 | with masking the client receives the streaming output of all reads |
| Forwarding.SseForwarder.ForwardPlain | proxy/internal/handler/proxy.go:675-686 | without masking it receives the reads unchanged |
| Forwarding.SseForwarder.Forward | proxy/internal/handler/proxy.go:574-704 | the client receives the body up to where it disconnects; capture, ring and last data line describe what was delivered |
| Dispatcher.AdvanceCall | proxy/internal/span/dispatch.go:104-126 | a send on the open channel enqueues its payload when fewer than `cap` are in it and gives up otherwise; a step of a `Dispatch` call changes only the calls, the counters, the channel and whether the waiter is woken |
| Dispatcher.Do | proxy/internal/span/dispatch.go:101-203 | no step changes the capacity or the number of started workers |
| Dispatcher.NobodySends | proxy/internal/span/dispatch.go:109-126 | when the counter is zero no call is at its send |
| Dispatcher.ShutdownKept | proxy/internal/span/dispatch.go:104-126 | every step keeps: the only panics are the wait group's own; counter = registered calls; an overdue waiter has exactly one call that wakes it; flag and close agree with `Drain`; no sender once the counter was seen at zero |
| Dispatcher.ClosesSafely | proxy/internal/span/dispatch.go:104-126 | in every interleaving nothing is sent on the closed channel, it is closed once, and the counter never goes negative |
| Dispatcher.ConservedKept | proxy/internal/span/dispatch.go:101-126 | every step keeps: dropped calls are counted, the enqueued payloads are those taken followed by those in the channel, none twice |
| Dispatcher.SpansConserved | proxy/internal/span/dispatch.go:101-178 | resolved calls = dropped + enqueued; enqueued = taken + channel in order, each once, never above capacity; taken = delivered + in workers' hands |
| DispatchDrops.StepLosesExactly | proxy/internal/span/dispatch.go:104-126 | a step loses the payload of a call exactly if the call sees the flag down or tries to send with `cap` payloads in the channel, and enqueues it exactly if it is handed over or finds room |
| DispatchDrops.DroppedExactly | proxy/internal/span/dispatch.go:101-131 | in every run the calls dropped or about to be counted are exactly those that saw the flag down or found the channel full, the payloads enqueued exactly those handed over or given room, and the counter counts the dropped ones |
| DispatchDrops.NothingDropped | proxy/internal/span/dispatch.go:101-126 | before `Drain` and with no more calls than the buffer holds nothing is dropped: every resolved call is enqueued |
| DispatchDrops.LateCallsDropped | proxy/internal/span/dispatch.go:101-108 | a call that comes after `Drain` flipped the flag is never enqueued |
| Dispatcher.DrainedCompletely | proxy/internal/span/dispatch.go:184-203 | if `Drain` returns through the workers without cancellation, the channel is empty and every enqueued payload was taken and delivered exactly once |
| Dispatcher.DrainReturns | proxy/internal/span/dispatch.go:184-203 | when `Drain` has returned, the channel is closed, nobody is about to send, and the workers have exited or, after the deadline, are cancelled |
| Dispatcher.DispatchNeverBlocks | proxy/internal/span/dispatch.go:101-126 | an unfinished call can always take its next step, which panics exactly if it is an `Add` under an overdue waiter and otherwise brings it nearer to its end |
| Dispatcher.WaitIsWoken | proxy/internal/span/dispatch.go:184-189 | a sleeping waiter always has a call that is registered or about to wake it |
| WaitReuse.StepPanicsExactly | proxy/internal/span/dispatch.go:109-110 | a step panics exactly if it is an `Add` under an overdue waiter or the return of a `Wait` that woke to a counter that is not zero |
| WaitReuse.PanicsExactly | proxy/internal/span/dispatch.go:104-126 | from a reachable state some continuation panics if and only if `Drain` is not called yet, or it is inside `Wait` and a call between its first check and `Add` can still get in its way, or has |
| WaitReuse.DrainSafeExactly | proxy/internal/span/dispatch.go:184-189 | a `Drain` called now cannot panic if and only if no call is between its first check and `Add`, or a single one is and nobody is registered |
| WaitReuse.WindowDecides | proxy/internal/span/dispatch.go:104-126 | a run in which no call registers between the counter's fall to zero and `Wait`'s return does not panic; one that registers there panics at once or in some continuation |
| WaitReuse.TwoCallsPanic | proxy/internal/span/dispatch.go:104-126 | two calls and `Drain` for which `Add` panics |
| WaitReuse.TwoCallsReuse | proxy/internal/span/dispatch.go:184-189 | two calls and `Drain` for which `Wait` panics |
| Dispatcher.MeasureAfterClose | proxy/internal/span/dispatch.go:151-178 | after close every worker step uses up work and no other step adds any |
| Dispatcher.WorkersNeverStuck | proxy/internal/span/dispatch.go:161-171 | after close some worker can step until all have exited |
| Dispatcher.WorkersFinish | proxy/internal/span/dispatch.go:180-203 | so no run has more worker steps after close than the measure |
| Dispatcher.CancelledWorkersExit | proxy/internal/span/dispatch.go:161-172 | once cancelled the workers can finish what they hold and exit, each in at most two steps, whatever is left in the channel |
| AuthCaching.AuthCache.constructor | proxy/internal/auth/cache.go:73-89 | an empty cache of 10000 entries with a closed breaker |
| AuthCaching.AuthCache.DeleteExpired | proxy/internal/auth/cache.go:101-108 | removes exactly the expired entries |
| AuthCaching.AuthCache.LeastRecentlyUsed | proxy/internal/auth/cache.go:182-194 | a key with minimal last use, "" for an empty map |
| AuthCaching.AuthCache.Check | proxy/internal/auth/cache.go:127-139 | finds the entry; a hit, exactly before its expiry, moves its time of last use and changes nothing else, a miss changes nothing |
| AuthCaching.AuthCache.RecordFailure | proxy/internal/auth/cache.go:215-226 | counts, and from the third failure on pushes the end of the cool-down 30 seconds ahead |
| AuthCaching.AuthCache.RecordSuccess | proxy/internal/auth/cache.go:228-236 | resets: the breaker is closed at every time |
| AuthCaching.AuthCache.Store | proxy/internal/auth/cache.go:167-203 | purges at capacity, evicts a least recently used entry if still full, and stores; all entries stay valid and within capacity |
| AuthCaching.AuthCache.Lookup | proxy/internal/auth/cache.go:120-206 | every outcome of an uninterrupted lookup and its effect on map and breaker |
| AuthCaching.StoreEvicts | proxy/internal/auth/cache.go:170-195 | a store removes expired entries and at most one live one, only when no expired one is left and the map is still full, and that one has minimal last use |
| AuthCaching.StoreKeepsRest | proxy/internal/auth/cache.go:170-203 | a store never exceeds capacity and leaves the other entries as they were |
| AuthRuns.EveryEventJustified | proxy/internal/auth/cache.go:124-236 | in every interleaving each hit, miss, breaker reading, store, stale answer and refusal has its reason in the events before it: a hit returns the result most recently stored for the digest; a refusal means the entry it saw was missing or five minutes stale |
| AuthRuns.BoundedStaleness | proxy/internal/auth/cache.go:120-206 | a returned result is this lookup's own reply, or valid and stored for this digest at a time v with use before v + ttl, or before v + ttl + 5 min only if this lookup saw the breaker open or its call failed |
| AuthRuns.CacheHoldsLatest | proxy/internal/auth/cache.go:91-111 | in every reachable state at most maxEntries entries, all valid, each the latest stored for its digest |
| AuthUse.StepEntries | proxy/internal/auth/cache.go:124-206 | what each step does to the map: a check before the expiry hits, answers the stored result and moves the time of last use; a store enters its result; a sweep drops exactly the entries past their expiry; nothing else touches it |
| AuthUse.LastUsedIsLatest | proxy/internal/auth/cache.go:130-133 | in every run the time of last use of an entry is that of the latest store or hit of its digest |
| AuthUse.LeavesForAReason | proxy/internal/auth/cache.go:170-195 | in every run an entry leaves only in a sweep, past its expiry, or in a store; a live one only when the cache is full of live ones, and its latest store or hit is then no later than that of any other live one |
| AuthUse.SweepKeepsLive | proxy/internal/auth/cache.go:91-111 | in every run a sweep leaves the live entries, all of them and no others |
| AuthUse.MissesExpired | proxy/internal/auth/cache.go:127-139 | in every run that stored fewer digests than the cache has places, a lookup of a stored result misses only at or after its expiry |
| AuthRuns.BreakerRefinesHistory | proxy/internal/auth/cache.go:208-236 | the counter is the number of failures since the last success, and the circuit is open exactly when that is at least 3 and the last failure is less than 30 s ago |
| AuthRuns.FailuresSpaced | proxy/internal/auth/cache.go:141-165 | one lookup at a time: a failed call that follows three or more failures in a row comes at least 30 s after the last |
| AuthRuns.LookupIsARun | proxy/internal/auth/cache.go:120-206 | what the object's `Lookup` does is a run of the interleaved machine in which only this lookup moves, so the results about all runs hold of it |
| AuthRuns.StaleOk | proxy/internal/auth/cache.go:146-164 | the fallback answers exactly when the entry it saw is valid and less than five minutes stale |
| SlidingWindow.Compact | proxy/internal/handler/proxy.go:99-105 | in-place compaction leaves the timestamps after the cutoff, in order |
| SlidingWindow.Append | proxy/internal/handler/proxy.go:110 | appends behind the slice, in the same array while it has room |
| SlidingWindow.RecentTwice | proxy/internal/handler/proxy.go:97-105 | pruning early does not change what a later cutoff leaves |
| SlidingWindow.RepresentsAccepted | proxy/internal/handler/proxy.go:97-111 | an accepted request keeps lists and full log indistinguishable for every later window |
| SlidingWindow.RepresentsSwept | proxy/internal/handler/proxy.go:128-143 | so does a sweep that changes no window |
| SlidingWindow.MeteredBound | proxy/internal/handler/proxy.go:106-111 | if each accepted request found fewer than limit others in its window, no window anywhere holds more than limit |
| SlidingWindow.WindowCount | proxy/internal/handler/proxy.go:97-106 | the length of the pruned list of a key is the number of its accepted requests in the window |
| KeyLimiter.KeyRateLimiter.Allow | proxy/internal/handler/proxy.go:85-112 | decides and updates the list of its key as specified, in place, touching no other key |
| KeyLimiter.KeyRateLimiter.Sweep | proxy/internal/handler/proxy.go:114-147 | drops exactly the keys whose timestamps have all left the window |
| KeyLimiter.AllExpired | proxy/internal/handler/proxy.go:132-138 | whether nothing is left in the window |
| KeyLimiter.AllowsExactly | proxy/internal/handler/proxy.go:85-111 | the decision, counted: no limit, or the key has a list or fewer than maxEntries keys do, and fewer than limit of its timestamps are in the window |
| KeyLimiter.RequestLists | proxy/internal/handler/proxy.go:97-111 | a request with room prunes its key's list to the window and enters itself if accepted; no other key changes |
| KeyLimiter.SweepLists | proxy/internal/handler/proxy.go:128-143 | a sweep keeps exactly the keys with a timestamp in the window, as they are |
| KeyLimiter.DecidesLikeFullLog | proxy/internal/handler/proxy.go:85-112 | after every ordered run a request is accepted if and only if its key has a list or fewer than maxEntries keys do, and fewer than limit accepted requests of the key lie in the window of the full log |
| KeyLimiter.AcceptsLikeFullLog | proxy/internal/handler/proxy.go:85-147 | over every ordered run that has seen at most maxEntries keys, the accepted requests are exactly those a limiter accepts that forgets nothing |
| KeyLimiter.WindowBound | proxy/internal/handler/proxy.go:85-147 | in every run no window of length W holds more than limit accepted requests of a key |
| KeyLimiter.RunBounded | proxy/internal/handler/proxy.go:92-95 | the map never exceeds maxEntries |
| KeyLimiter.SweepKeepsDecisions | proxy/internal/handler/proxy.go:128-143 | a sweep changes no later decision on a key that still has room |
| EmailLimiter.EmailRateLimiter.Allow | processing/internal/middleware/ratelimit.go:197-222 | decides and updates the list of the normalized address as specified |
| EmailLimiter.EmailRateLimiter.CompactOne | processing/internal/middleware/ratelimit.go:235-247 | compacts one list in place and drops it when empty |
| EmailLimiter.EmailRateLimiter.Cleanup | processing/internal/middleware/ratelimit.go:224-251 | compacts every list in place and drops the empty ones |
| EmailLimiter.AllowsExactly | processing/internal/middleware/ratelimit.go:197-222 | the decision, counted: fewer than limit timestamps of the address are in the window |
| EmailLimiter.CleanupLists | processing/internal/middleware/ratelimit.go:224-251 | a cleanup leaves exactly the timestamps in the window and no empty list |
| EmailLimiter.DecidesLikeFullLog | processing/internal/middleware/ratelimit.go:197-251 | after every ordered run a request is accepted if and only if fewer than limit accepted requests of its address lie in the window of the full log |
| EmailLimiter.AcceptsLikeFullLog | processing/internal/middleware/ratelimit.go:197-251 | over every ordered run the accepted requests are exactly those a limiter accepts that forgets nothing |
| EmailLimiter.WindowBound | processing/internal/middleware/ratelimit.go:197-251 | no window holds more than limit accepted requests of an address |
| IngestLimiter.PerKeyIngestRateLimit.LeastRecentlySeen | processing/internal/middleware/ingest_ratelimit.go:88-97 | a bucket with minimal lastSeen |
| IngestLimiter.PerKeyIngestRateLimit.MakeRoom | processing/internal/middleware/ingest_ratelimit.go:83-102 | at capacity a bucket seen longest ago is evicted, otherwise nothing |
| IngestLimiter.PerKeyIngestRateLimit.Record | processing/internal/middleware/ingest_ratelimit.go:106-118 | prunes, stamps and, unless over, appends |
| IngestLimiter.PerKeyIngestRateLimit.Admit | processing/internal/middleware/ingest_ratelimit.go:80-119 | the whole critical section: decision, eviction and new bucket |
| IngestLimiter.PerKeyIngestRateLimit.Sweep | processing/internal/middleware/ingest_ratelimit.go:42-60 | drops exactly the buckets not seen for the TTL |
| IngestLimiter.OverExactly | processing/internal/middleware/ingest_ratelimit.go:106-115 | the decision, counted: at least max timestamps of the key are in the window |
| IngestLimiter.RequestBuckets | processing/internal/middleware/ingest_ratelimit.go:83-114 | a request stamps its own bucket; only the victim of an eviction goes, at capacity, and no other bucket changes |
| IngestLimiter.RequestStamps | processing/internal/middleware/ingest_ratelimit.go:106-118 | its bucket keeps the timestamps in the window and gets the request unless it is over |
| IngestLimiter.SweptKeys | processing/internal/middleware/ingest_ratelimit.go:48-57 | a sweep keeps exactly the buckets seen within the TTL |
| IngestLimiter.DecidesLikeFullLog | processing/internal/middleware/ingest_ratelimit.go:80-119 | while nothing is evicted and the window is at most the TTL, a request is accepted if and only if fewer than max accepted requests of its key lie in the window of the full log |
| IngestLimiter.FewKeysStay | processing/internal/middleware/ingest_ratelimit.go:83-101 | a run that has seen at most maxBuckets keys evicts nothing |
| IngestLimiter.AcceptsLikeFullLog | processing/internal/middleware/ingest_ratelimit.go:80-119 | over every ordered run that has seen at most maxBuckets keys, with the window at most the TTL, the accepted requests are exactly those a limiter accepts that forgets nothing |
| IngestLimiter.WindowBound | processing/internal/middleware/ingest_ratelimit.go:27-132 | under the same hypotheses no window holds more than max accepted requests of a key |
| IngestOverflow.LongWindowOverflows | processing/internal/middleware/ingest_ratelimit.go:50-55 | for every limit, capacity and window longer than the TTL a sweep lets a window hold max + 1 requests |
| IngestOverflow.BoundedExactly | processing/internal/middleware/ingest_ratelimit.go:27-60 | all ordered runs without eviction keep the bound if and only if the window is at most one tick longer than the TTL |
| IngestOverflow.EvictionOverflows | processing/internal/middleware/ingest_ratelimit.go:84-101 | for every limit and capacity, hence 50000, an ordered run that evicts only buckets seen longest ago puts max + 1 requests of a key into one window |
| IngestOverflow.LateLockOverflows | processing/internal/middleware/ingest_ratelimit.go:80-81 | for every limit of two or more a clock reading older than the lock order puts max + 1 requests into one window |
| JsonTokens.SkipJSONValue | processing/internal/middleware/ingest_ratelimit.go:174-205 | the cursor after skipping, and failure exactly when the stream ends inside |
| JsonTokens.SkipOne | processing/internal/middleware/ingest_ratelimit.go:174-205 | it consumes exactly the tokens of one value at any nesting depth, whatever follows, and fails exactly when the stream is cut inside it |
| JsonTokens.SkipAllMembers | processing/internal/middleware/ingest_ratelimit.go:181-192 | the same for the rest of an object |
| JsonTokens.SkipAllElements | processing/internal/middleware/ingest_ratelimit.go:193-201 | the same for the rest of an array |
| JsonTokens.ExtractAPIKeyID | processing/internal/middleware/ingest_ratelimit.go:137-172 | the search over the token stream |
| JsonTokens.ExtractsTopLevelKey | processing/internal/middleware/ingest_ratelimit.go:134-172 | on any object, complete or broken off: the first top-level `api_key_id` if it is a string and was reached, "" otherwise; never a nested one |
| JsonTokens.ExtractsFromWholeBody | processing/internal/middleware/ingest_ratelimit.go:134-172 | on a complete body of any kind: the key of an object, "" for everything else |
| Pagination.Limit | processing/internal/service/dashboard.go:327-334 | 50 by default, otherwise what was asked for, at most 100 |
| Pagination.WholeIsSorted | processing/internal/db/sessions.sql.go:425-445 | the whole list is strictly sorted and holds exactly the filtered rows, each once |
| Pagination.OrderedByField | processing/internal/service/dashboard.go:408-453 | the rows of each page are ordered by the field of the requested column, `started_at` by default, in the requested direction, descending by default, with ties by id |
| Pagination.ListedByField | processing/internal/db/sessions.sql.go:430-443 | a row is listed exactly when it is the organization's and each of status, key, agent, start, end and provider is left out or met |
| Pagination.FollowListsOnly | processing/internal/service/dashboard.go:343-408 | following cursors lists no other row, whatever they read back as |
| Pagination.OrderBehind | processing/internal/service/dashboard.go:442-453 | filtering by the cursor before sorting gives the rows of the sorted list behind it |
| Pagination.BehindIsSuffix | processing/internal/service/dashboard.go:443-452 | the rows behind a place are a suffix of the list |
| Pagination.ResumesBehind | processing/internal/service/dashboard.go:539-545 | a cursor resumes exactly behind its row if and only if its text reads back between that row and the next |
| Pagination.FollowFrom | processing/internal/service/dashboard.go:403-408 | the listing from any place on is the rest of the list if and only if every cursor it follows is sound |
| Pagination.PagingExactly | processing/internal/handler/dashboard.go:74-94 | following `next_cursor` returns the filtered rows in order, each once, and stops with the first page that is not full, if and only if all rows fit one page or the handler expects the cursor the service issues and every followed cursor is sound |
| Pagination.PageCount | processing/internal/service/dashboard.go:403-408 | the number of requests p satisfies (p - 1) * limit <= n < p * limit |
| Pagination.ExactColumnsPage | processing/internal/service/dashboard.go:326-582 | started_at, last_span_at and span_count list every table completely, in both directions |
| Pagination.WholeMicrosPage | processing/internal/service/dashboard.go:567-582 | total_cost_usd does when every cost is a whole number of millionths |
| Pagination.CostPagingSkips | processing/internal/service/dashboard.go:570-574 | two costs for which the second row is never listed, however many pages are requested |
| Pagination.AscendingRefused | processing/internal/handler/dashboard.go:74-94 | two rows in ascending order without a column: the second is never listed and no listing completes |
| TextCut.BoundaryIsValidPrefix | processing/internal/service/intelligence.go:718-729 | on well-formed text rune starts are exactly the ends of well-formed prefixes |
| Utf8.DecodesEncoded | processing/internal/service/intelligence.go:697-708 | the decoder reads back every character encoded by the table of RFC 3629, whatever follows |
| Utf8.DecodedIsEncoded | processing/internal/service/intelligence.go:697-708 | and what it accepts is the encoding of a character that is no surrogate |
| Utf8.StartsExactly | processing/internal/service/intelligence.go:697-708 | a text is well formed at its front exactly when it begins with such an encoding |
| TextCut.LongestCommonPrefix | processing/internal/service/intelligence.go:695-708 | the loop compares rune by rune |
| TextCut.CommonPrefixIsCommon | processing/internal/service/intelligence.go:695-708 | if one text is well formed the result is a well-formed prefix of both |
| TextCut.CommonPrefixIsLongest | processing/internal/service/intelligence.go:695-708 | no well-formed common prefix is longer, whatever the texts |
| TextCut.CommonPrefixExactly | processing/internal/service/intelligence.go:695-708 | on any bytes the result is a prefix of the second text if and only if the texts do not first differ where both are decoded from and both are ill-formed |
| TextCut.IllFormedPrefixDiffers | processing/internal/service/intelligence.go:697-708 | as on 0xFF and 0xFE, which a UTF-8 column does not hold |
| TextCut.SharedPrefixIsLongest | processing/internal/service/intelligence.go:119-128 | the fold over many inputs is the longest well-formed prefix they all share |
| TextCut.PromptByPrefix | processing/internal/service/intelligence.go:119-132 | with its early exit the loop yields that prefix when it has at least 100 bytes and nothing otherwise |
| TextCut.ExtractSystemBlock | processing/internal/service/intelligence.go:649-674 | the loop over lines, with and without a final newline |
| TextCut.BlockIsWholeLines | processing/internal/service/intelligence.go:649-674 | the block consists of whole first lines that all start with `system: ` |
| TextCut.BlockIsLongest | processing/internal/service/intelligence.go:649-674 | and no longer run of whole first lines does |
| TextCut.ExtractSystemBlockCandidate | processing/internal/service/intelligence.go:676-693 | a nonempty answer is the block of some input and of every input that has one; an empty one means none has one or two differ |
| TextCut.Truncate | processing/internal/service/intelligence.go:718-729 | cuts at the last rune start at or before the limit |
| TextCut.MarkedIsFragment | processing/internal/service/intelligence.go:752-753 | the result begins with the head, ends with the tail, and between them stands the marker with the number of bytes left out |
| TextCut.TruncateForLLM | processing/internal/service/intelligence.go:731-754 | unchanged within the limit; otherwise such a fragment, cut at the last rune start before the head's budget and the first one behind the tail's |
| TextCut.CutBeforeIsLongest | processing/internal/service/intelligence.go:718-729 | the cut keeps the longest well-formed prefix within the limit and gives up at most three bytes |
| TextCut.CutAfterIsLongest | processing/internal/service/intelligence.go:746-750 | the tail is the longest well-formed suffix within its budget |
| TextCut.TruncationIsFaithful | processing/internal/service/intelligence.go:731-754 | head and tail are rune-aligned, disjoint and within budget, the omitted count is exact and positive, and the result is well formed |
| Quota.Organization.TryIncrement | processing/internal/db/organizations.sql.go:319-356 | the UPDATE: reset in a new month, increment below the limit, no row otherwise |
| Quota.Organization.Ingest | processing/internal/service/internal.go:321-338 | a transaction that rolls back leaves the counter as it was |
| Quota.CounterCountsCommits | processing/internal/db/organizations.sql.go:319-340 | the counter is the number of spans committed since its period started |
| Quota.MonthlyLimit | processing/internal/service/internal.go:209-212 | no month ever commits more than 3000 spans |
| Quota.RefusedOnlyWhenFull | processing/internal/service/internal.go:324-338 | the gate refuses exactly when the month is full |
| Quota.CommitsAsCountedAnew | processing/internal/service/internal.go:321-338 | over every run exactly the spans are committed that a gate would commit that counts each month anew |
| Sessions.LabelIsRight | processing/internal/service/internal.go:576-592 | over counts read together the heuristic is right: failed exactly when no span is disconnected and all are errors, and likewise for the other three |
| Sessions.StatusGroups | processing/internal/service/internal.go:561-593 | each idle session is in the group of its label and in no other |
| Sessions.Database.IngestSpan | processing/internal/service/internal.go:340-441 | inserts the span and books it on its session, a new one when none was found |
| Sessions.Database.CloseGroups | processing/internal/service/internal.go:595-604 | the batch updates, in any order, give each session its label and change nothing else |
| Sessions.Database.RunSessionClosureCron | processing/internal/service/internal.go:530-604 | run without interruption every idle session gets the status its spans call for and no other row changes |
| Sessions.BooksAfterSpan | processing/internal/db/sessions.sql.go:523-530 | booking a span keeps count and cost equal to those of the session's spans |
| Sessions.SessionsConserved | processing/internal/service/internal.go:321-441 | in every interleaving of ingests, closures and upgrades each session's span_count and total_cost_usd are the count and cost of its spans, and it has a span |
| Sessions.RowStep | processing/internal/db/sessions.sql.go:17-24 | what each step does to a row: a span adds one and its cost to its session, a closure sets the status of the in-progress rows labelled with it, an upgrade turns completed into completed_with_errors for its organization, nothing else changes a row |
| Sessions.NewRow | processing/internal/service/internal.go:382-438 | a new session has the organization of its request, is in progress and holds one span and its cost |
| Sessions.StatusStep | processing/internal/db/sessions.sql.go:17-24 | each step changes a status only out of progress or from completed to completed with errors |
| Sessions.StatusNeverReenters | processing/internal/db/sessions.sql.go:542-548 | over any run no session goes back into progress and the only terminal change is completed to completed_with_errors |
| Sessions.ClosedAsItsSpansSay | processing/internal/service/internal.go:540-604 | in every interleaving a session is closed with the right status if no span was committed to it since the cron first read it |
| Sessions.LateSpanMislabels | processing/internal/service/internal.go:541-592 | with a span in between a session with one success closes as failed |
| Batcher.TouchesConserved | processing/internal/service/last_used_batcher.go:54-111 | at every step the accepted ids are those in the inbox, pending or written; refused touches are counted until reported |
| Batcher.RefusedExactly | processing/internal/service/last_used_batcher.go:54-60 | in every run a `Touch` is refused exactly when it finds 1024 ids in the inbox; the others are accepted in order |
| Batcher.UpdatesExactly | processing/internal/service/last_used_batcher.go:62-111 | in every run the updater is called once for each tick with something pending, each id that fills a batch, and a drain that ends with something pending |
| Batcher.BatchesBounded | processing/internal/service/last_used_batcher.go:62-97 | no batch holds an id twice, and only the last one of a shutdown may exceed maxBatch |
| Batcher.ShutdownWritesAll | processing/internal/service/last_used_batcher.go:98-109 | when the goroutine returns every id accepted before it found the inbox empty in its drain was passed to UpdateBatch |
| Batcher.ReturnsAfterDrain | processing/internal/service/last_used_batcher.go:98-109 | every run that returns has found the inbox empty in its drain |
| Batcher.DrainProgresses | processing/internal/service/last_used_batcher.go:98-109 | each step of the drain shortens the inbox or ends it |

## Left out

- RoundTrip.NoOriginalStored: for several entries the condition (no original part of the placeholder of the same or a later entry) is sufficient; it is shown necessary for one entry only, because a later replacement may by accident destroy what an earlier one re-created.
- RoundTrip.UnmaskUndoesMask: that no rule matches into a placeholder of an earlier rule is assumed, which the code does not prevent; `NestedMasks.ClearExactly` shows the assumption necessary when originals are nonempty and bracket-free, and for other originals it is only sufficient.
- Streaming.StreamingMatchesWhole: empty placeholders are excluded; the code never generates one.
- IngestLimiter.PerKeyIngestRateLimit.Admit: buckets are held in the map by value, not by pointer; no two keys ever share one.
- Pagination.ExactColumnsPage: that the RFC 3339 text of a timestamp reads back as the same microsecond is taken from Go and PostgreSQL.
- Pagination.WholeMicrosPage: `%f` is modelled as rounding to the nearest millionth; which way an exact tie goes is not modelled.
- WaitReuse.PanicsExactly: a panic ends the run; that an HTTP server may recover the handler's panic and go on with the counter as it is then is not modelled.
- Dispatcher.Do: `Start` happens at most once; a cancellation before it is remembered, which allows more behaviour than the code has.
- Sessions.Database.IngestSpan: which session a request finds (API key, external id, timeout) is a parameter; any session in progress, or a new one, is allowed.
- Sessions.Database.RunSessionClosureCron: the idle query is a parameter; timeouts, the 2000-row limit and the events published afterwards are not modelled.
- The regular expression engine, `strings.ToUpper` beyond ASCII and the JSON extraction of texts from provider bodies.
- `RateLimiter` of `processing/internal/middleware/ratelimit.go`: the same compaction as the limiters above; its eviction at capacity voids the bound just as the ingest limiter's does.
- The RFC 8259 grammar below tokens: commas, colons and escapes are the decoder's; a malformed body is a stream that ends early.
- SQL isolation: a statement is one step and a transaction commits as a whole; unique indexes and row locks are not modelled.
- Retention purges, plan changes of an organization, cost calculation with `big.Float`, narratives and clustering.
- HTTP forwarding, headers, TLS, DNS pinning, panic recovery around masking, logging and error tracking.
- Cryptography: a digest is an opaque nonempty key, and whole bodies of verification replies are opaque.
- The user interface under `web/`.
