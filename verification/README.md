# Verified model of the sandbox platform's core

A Dafny 4.11 model of the parts of opencode-scale where a small mistake is hard to see: the JSON
extraction that gates model output, the sandbox pool and its dual-index cache, the sliding-window
rate limiter, the event-stream reader with the writer that feeds it, and the workflow and router
that tie them together. `dafny verify dfyconfig.toml` checks everything.

The code that works by changing things step by step is modelled imperatively (loops with
invariants, classes with mutable fields) and each such method is proved equal to a specification
function; the main results are lemmas about those functions, or about every run of a state machine.

| File | What it holds |
|---|---|
| `Common.dfy` | bytes, options, results, decimal numerals |
| `JsonGrammar.dfy`, `JsonParser.dfy` | RFC 8259 as concrete syntax trees with a printer; a parser for `json.Valid`, sound and complete for it |
| `JsonAbnf.dfy` | numbers, literal names, strings and whitespace as RFC 8259 writes them down, equal to what the grammar's automata accept |
| `BracketScanner.dfy`, `ExtractJson.dfy` | the depth counter, `ExtractJSON`, and what the two passes and the fallback together return |
| `AllocationCache.dfy`, `PoolManager.dfy` | the cache and the pool as classes, one call at a time; the mock provider |
| `PoolMachine.dfy` | the same pool as a step machine: any number of threads, interleaved at every access to the cache, to a field of an allocation and to the provider |
| `PoolSafety.dfy`, `PoolCapacity.dfy` | what every run of that machine keeps, and exactly when |
| `PoolAgreement.dfy` | the sequential calls of Allocate, AllocateWarm, Release, Heartbeat and RunGC are uninterrupted runs of that machine, with the same table, session index and live sandboxes |
| `RateLimiter.dfy` | the limiter that never forgets, the limiter as written, and the refinement between them |
| `JsonStrings.dfy`, `CodePoints.dfy` | JSON string escaping and unescaping with UTF-8 replacement; the same code point by code point, and UTF-8 as RFC 3629 defines it |
| `Floats.dfy` | reading a decimal fraction into float64: the number taken is one than which no float64 is nearer |
| `SseReader.dfy`, `SseStandard.dfy` | the stream reader against a block-by-block reading, and against the WHATWG standard |
| `SseEnds.dfy`, `SseEvents.dfy` | how a stream ends for it; what it takes from one event, by the event's members and by the digits of its numbers |
| `SseWriter.dfy`, `SseRoundTrip.dfy` | the chunking writer, and what the reader makes of its stream |
| `Workflow.dfy`, `Router.dfy` | the coding-task workflow over every activity outcome, composed with the pool; session routing |

## What turned out not to hold

- A claim can be overtaken. `claimIdle` writes an entry's status before its activity, its session and the
  cache, and `RunGC` takes no lock: an idle entry older than the cutoff can be collected in between and then
  be put back by the claim, cached with its sandbox deleted (`PoolSafety.OvertakenClaim` is such a
  run). Provider and cache agree, and entries only move forward, exactly in the runs where no claim puts an
  entry back (`ProviderCacheConservationIff`, `StatusMovesForwardIff`, `PutBackIffOvertaken`); it is enough
  that `RunGC` judges no entry that is being claimed, as it would under `p.mu` (`GuardedIsEnough`).
- Between its session write and its `Set` a claim's entry is missing from the session index, and no other
  entry ever is (`PoolSafety.IndexIsSearchIff`, `ClaimIsUnindexed`).
- `docs/configuration.md:94` calls `maxSize` a hard cap. It is one exactly when no two creators ever
  overlap between the check and the insertion (`PoolCapacity.HardCapIffOneCreator`); with `k` of them the
  bound is `maxSize - 1 + k` and some run reaches it.
- `docs/architecture.md:173` and the comment on `ExtractJSON` promise the first valid object or array.
  That holds exactly under the condition of `ExtractJson.FirstContainerIff`; `ObjectHidesArray` shows texts
  like `[{"a":1}]` where it fails.
- Extraction is idempotent on objects and not on every array (`ExtractJson.IdempotentIff`): `NotIdempotent`
  takes `[{}]` from `{[{}]` and `{}` from that.
- A written output is read back unchanged exactly when it is UTF-8 and no multiple of 100 falls inside a
  character (`SseRoundTrip.RoundTripIff`); `CutCharacterIsLost` is an output that is not.
- The reader dispatches the events of the WHATWG standard exactly on streams whose blocks are steady
  (`SseStandard.AgreesWithStandardIff`); three lemmas exhibit the differences.
- Waiting for the Retry-After time frees a place, but another call of the same key may take it first
  (`RateLimiter.RetryHint`, `RetryCanBeOvertaken`).

A sandbox with an empty name would be allocated and never released. No provider returns one: the mock provider's
names are not empty (`MockProvider.MockName`), and the Kubernetes provider's start with `oc-`.

## Assumptions

Provider names and session ids are new each time (`MockProvider` proves it for the mock provider's names), a
create that fails leaves nothing running, a delete that fails leaves the sandbox as it was, `Release` is
called by `RunGC` and otherwise only for sandboxes that Allocate has returned, single reads and writes of a
field are atomic, the clock does not run backwards, and the request limit is at least one (with zero, `check`
indexes an empty slice).

## Model

| member | source | states |
|---|---|---|
| JsonParser.ValidIsGrammar | internal/schema/validator.go:95 | the validity test accepts a text if and only if it is one JSON value of the grammar between blanks, nested at most 10000 deep |
| JsonParser.ParsePrinted | internal/schema/validator.go:95 | a tree printed with any insignificant whitespace is parsed back to that very tree: the grammar is unambiguous |
| JsonParser.ParsedPrints | internal/schema/validator.go:95 | conversely every text that parses is the printed tree between blanks |
| JsonAbnf.NumberIff | internal/schema/validator.go:95 | a text is a number of the grammar if and only if it is an optional minus, `0` or a nonzero digit and digits, optionally a point and digits, optionally `e` or `E`, a sign or none and digits (RFC 8259, section 6) |
| JsonAbnf.ScalarIff | internal/schema/validator.go:95 | and a scalar if and only if it is that, `true`, `false` or `null` |
| JsonAbnf.StringIff | internal/schema/validator.go:95 | a text may stand between quotes if and only if it is a sequence of unescaped characters, two-character escapes and `\u` with four hexadecimal digits (section 7) |
| JsonAbnf.NestingLimit | internal/schema/validator.go:95 | ten thousand arrays one in the other are valid and ten thousand and one are not |
| BracketScanner.SkipValue | internal/schema/validator.go:71-91 | over a whole JSON value inside a container the depth counter, whichever bracket it counts, ends where it began and offers no candidate |
| BracketScanner.ContainerEndsAtZero | internal/schema/validator.go:68-92 | on the text of an object or array the depth first returns to zero at its last byte and nowhere before, although only one kind of bracket is counted |
| ExtractJson.CompactIsStrip | internal/schema/validator.go:97-100 | compacting the text of a tree gives the text of the tree without its whitespace, strings untouched |
| JsonGrammar.StripIff | internal/schema/validator.go:97-100 | and that tree is the only one with the same names, strings, numbers and order that has no insignificant whitespace |
| ExtractJson.SoughtIsAtFirst | internal/schema/validator.go:62-95 | what a pass is after is the unique container of its kind that is a prefix of the text at the first opening bracket |
| ExtractJson.ValidCandidate | internal/schema/validator.go:93-95 | a candidate can be valid only if it is exactly that container |
| ExtractJson.SoughtIsOffered | internal/schema/validator.go:71-95 | the scan always offers that container, and offers nothing before it |
| ExtractJson.OnlyFirstCandidateCounts | internal/schema/validator.go:92-103 | once the first balanced close gives an invalid candidate, no later candidate of the pass is valid |
| ExtractJson.FallbackNeverSucceeds | internal/schema/validator.go:108-113 | if the greedy leftmost match is valid JSON, one of the passes has already returned: the fallback is dead code |
| ExtractJson.ScanPass | internal/schema/validator.go:62-105 | the walk with depth, inString and escaped returns the compacted container at the first bracket, or nothing when there is none |
| ExtractJson.ExtractJSON | internal/schema/validator.go:53-116 | the two passes and the fallback together return the object at the first `{`, failing that the array at the first `[`, compacted, else an error |
| ExtractJson.ExtractionCharacterised | internal/schema/validator.go:53-116 | success and result in terms of the grammar alone: Ok if and only if a container of either kind stands at its first bracket, the object taking precedence |
| ExtractJson.ObjectRoundTrip | internal/schema/validator.go:62-102 | any prefix without `{`, an object printed with any whitespace, any suffix: the extraction is the compacted object |
| ExtractJson.ArrayRoundTripIff | internal/schema/validator.go:54-102 | the same for an array if and only if nothing is found at the first `{` of the whole input, in particular when it has no `{` |
| ExtractJson.IdempotentIff | internal/schema/validator.go:53-116 | extracting again from a result returns it if and only if it was an object or holds no object at its first `{` |
| ExtractJson.NotIdempotent | internal/schema/validator.go:53-116 | an input whose result is extracted to something else |
| ExtractJson.FirstContainerIff | internal/schema/validator.go:51-116 | the result is the first valid object or array of the text if and only if that container's bracket is the first of its kind and, for an array, nothing is found at the first `{` |
| ExtractJson.ObjectHidesArray | internal/schema/validator.go:54-61 | an array that starts with an object is never returned, its first element is |
| Validation.ValidateWithFeedback | internal/schema/validator.go:129-153 | refused as holding no JSON if and only if no container stands at its first bracket; otherwise the container's compact text is refused with the schema's complaint if there is one, and accepted if there is none |
| Validation.AcceptedIsSound | internal/schema/validator.go:129-153 | an accepted output is the compact text of a container of the data and conforms; an accepted object is accepted again unchanged |
| AllocationCaches.AllocationCache.Set | internal/pool/cache.go:38-45 | both indexes after an insertion, as maps of objects and as values |
| AllocationCaches.AllocationCache.Delete | internal/pool/cache.go:48-57 | the entry leaves both indexes, the session index through the session the shared object has now |
| AllocationCaches.AllocationCache.Get | internal/pool/cache.go:22-27 | the shared object filed under a name, or nothing |
| AllocationCaches.AllocationCache.GetBySession | internal/pool/cache.go:30-35 | the bySession entry; while the cache is coherent, exactly what a linear search of the by-name table finds |
| AllocationCaches.AllocationCache.List | internal/pool/cache.go:60-68 | every allocation exactly once |
| AllocationCaches.AllocationCache.ListByStatus | internal/pool/cache.go:71-81 | the allocations of the status, all of them, each once |
| AllocationCaches.AllocationCache.Len | internal/pool/cache.go:84-88 | the number of names |
| AllocationCaches.SetExactIff | internal/pool/cache.go:38-45 | an insertion keeps the session index free of stale and missing entries if and only if it strands no session and steals none |
| AllocationCaches.DeleteExact | internal/pool/cache.go:48-57 | a deletion keeps the session index exact |
| PoolManagers.PoolManager.ClaimIdle | internal/pool/manager.go:124-142 | an idle entry if there is one becomes active for the user under a new session, in place; nothing else changes and the index stays exact |
| PoolManagers.PoolManager.TurnOver | internal/pool/manager.go:133-139 | the four field writes and the `Set` together change exactly one row and keep the index exact |
| PoolManagers.PoolManager.Allocate | internal/pool/manager.go:77-120 | idle entry, else room and a new sandbox, else exhausted or failed with nothing changed, and the index stays exact |
| PoolManagers.PoolManager.AllocateWarm | internal/pool/manager.go:197-229 | a new idle entry if there is room and the provider succeeds, otherwise nothing changes |
| PoolManagers.PoolManager.Release | internal/pool/manager.go:145-168 | the entry is gone from both indexes when the provider deleted it, otherwise it is marked releasing |
| PoolManagers.PoolManager.Heartbeat | internal/pool/manager.go:171-180 | exactly the entry a search for the session finds is touched, and only its last activity |
| PoolManagers.PoolManager.RunGC | internal/pool/manager.go:184-194 | no active entry older than the cutoff remains: gone if and only if deletable, else releasing; idle, releasing and fresh active entries are unchanged |
| PoolManagers.SweptIffCollected | internal/pool/manager.go:184-194 | those facts describe one table only, and collecting again changes nothing |
| PoolManagers.PoolManager.ReplenishWarm | internal/pool/manager.go:252-261 | brings the idle entries to exactly max(minReady, idle before) unless it stops at a full pool or a failing provider, and never beyond; creates nothing when there were enough; every new entry is an idle one the provider made, no existing entry is touched, maxSize is kept |
| MockProvider.MockName | internal/pool/mock_provider.go:26-27 | a name is never empty |
| MockProvider.MockNamesDiffer | internal/pool/mock_provider.go:25-29 | numbers give different names |
| MockProvider.MockSandboxProvider.CreateSandbox | internal/pool/mock_provider.go:25-29 | the counter hands out a new name each time, and never an empty one |
| PoolMachine.Reachable | internal/pool/manager.go:77-229 | the pool invariant holds in every state any interleaving of single accesses reaches, overtaken claims included |
| PoolMachine.Step | internal/pool/manager.go:77-229 | every step of every operation keeps it |
| PoolSafety.ProviderCacheConservationIff | internal/pool/manager.go:96-168 | in all states of a run a live sandbox is cached or held by exactly one create, and a cached name that is not live is held by a release between the two deletes, if and only if no claim of the run puts a dropped entry back with no further release at hand |
| PoolSafety.PutBackIffOvertaken | internal/pool/manager.go:133-139 | a claim's Set puts its entry back if and only if a release dropped the entry since the claim wrote its status |
| PoolSafety.GuardedIsEnough | internal/pool/manager.go:184-194 | if RunGC judges no entry that is being claimed, no run puts an entry back |
| PoolSafety.OvertakenClaim | internal/pool/manager.go:133-194 | for every sandbox idle since before the cutoff a run that ends with no operation in flight, the sandbox deleted, its entry back in the cache as releasing and a user holding a session to it |
| PoolSafety.QuiescentAgreementIff | internal/pool/manager.go:145-168 | with no operation in flight the cache holds the live sandboxes and those put back; exactly the live ones if and only if none was |
| PoolSafety.ExclusiveOwnership | internal/pool/manager.go:124-142 | no two Allocate calls of any run return the same sandbox |
| PoolSafety.OwnerStays | internal/pool/manager.go:133-139 | a sandbox keeps for good the session and host it was handed out with |
| PoolSafety.SessionAffinity | internal/router/handler.go:59-70 | a session that hits the cache at two moments of a run is routed to the same sandbox and host |
| PoolSafety.IndexIsSearchIff | internal/pool/cache.go:30-57 | in every reachable state the session index is a linear search of the by-name table for a session, if and only if the entry of that session is not between its session write and its Set |
| PoolSafety.ClaimIsUnindexed | internal/pool/manager.go:136-139 | a run that stands there |
| PoolSafety.StatusMovesForwardIff | internal/pool/manager.go:133-194 | every sandbox only moves forward through idle, active, releasing, removed, if and only if no claim of the run puts a dropped entry back |
| PoolSafety.ReleasedForCause | internal/pool/manager.go:145-194 | a sandbox goes only by a release's delete, and every mark, delete and drop is made by a thread that was called to release a sandbox handed out, or that has seen it active and then found its last activity before the cutoff |
| PoolCapacity.CapacityBound | internal/pool/manager.go:87-112 | with at most k creators between check and insertion, cache and creators together never exceed maxSize - 1 + k, put-backs included |
| PoolCapacity.CapacityBoundAttained | internal/pool/manager.go:87-112 | for every maxSize and k some run with at most k creators fills the cache to maxSize - 1 + k |
| PoolCapacity.HardCapIffOneCreator | docs/configuration.md:94 | maxSize is a hard cap if and only if creators never overlap |
| PoolAgreement.AllocateIsARun | internal/pool/manager.go:77-120 | every sequential Allocate, whatever its outcome, is an uninterrupted run of the machine that ends with the same table, its exact session index and its live sandboxes |
| PoolAgreement.AllocateWarmIsARun | internal/pool/manager.go:197-229 | the same for AllocateWarm |
| PoolAgreement.ReleaseIsARun | internal/pool/manager.go:145-168 | the same for Release of a sandbox that was handed out, still cached or not |
| PoolAgreement.HeartbeatIsARun | internal/pool/manager.go:171-180 | the same for Heartbeat, which finds what a search of the table finds |
| PoolAgreement.RunGCIsARun | internal/pool/manager.go:184-194 | the same for a whole collection, one release after the other |
| PoolAgreement.IndexesAgree | internal/pool/cache.go:8-12 | a table has one exact session index, so the machine's is the cache's |
| RateLimiter.SlidingWindowSafety | cmd/mock-llm-api/main.go:46-105 | over every run with a clock that does not run backwards, every half-open window of sixty seconds holds at most rpmLimit admitted requests of a key and, with a token limit, at most tpmLimit tokens |
| RateLimiter.PruneTime | cmd/mock-llm-api/main.go:86-95 | the filter that writes into the slice it reads keeps exactly the times after the cutoff, in order |
| RateLimiter.PruneIsWindow | cmd/mock-llm-api/main.go:86-105 | pruning the one slice by time and the other by length leaves exactly the last minute of the full history, even when the slices were out of step before |
| RateLimiter.WindowIs | cmd/mock-llm-api/main.go:56-61 | the window of a history is its contiguous part with times in the last 60 000 000 000 nanoseconds |
| RateLimiter.TotalAppend | cmd/mock-llm-api/main.go:71-74 | the tokens of a window are added up |
| RateLimiter.AdmitIff | cmd/mock-llm-api/main.go:63-81 | a request is admitted if and only if the window with it in still keeps both limits |
| RateLimiter.Limiter.Check | cmd/mock-llm-api/main.go:46-84 | over the whole unpruned history: admitted if and only if the last minute holds fewer requests than the limit and, with a token limit, no more tokens than it with the new ones; a refusal by the request limit tells the whole milliseconds until the oldest request is a minute old, one by the token limit 30 000; what is admitted is recorded, nothing else |
| RateLimiter.Limiter.Stats | cmd/mock-llm-api/main.go:108-126 | reports the requests and tokens of the last minute exactly |
| RateLimiter.Limiter.DebugUsage | cmd/mock-llm-api/main.go:237-255 | prunes only the request slices, reading the clock for each key: the requests shown are those of the last minute at some moment of the call, the tokens those of the minute before the key was last checked or asked for its stats, and the invariant survives |
| RateLimiter.Serve | cmd/mock-llm-api/main.go:46-126 | for every sequence of calls, debug calls included, the answers are those of the limiter that never forgets; the tokens of a debug call are those of the last check or stats of the key |
| RateLimiter.NoEarlyAdmission | cmd/mock-llm-api/main.go:63-68 | after a request-limit refusal no call before the oldest request's expiry is admitted, however many are made |
| RateLimiter.RetryPassesRpm | cmd/mock-llm-api/main.go:63-68 | the first attempt at or after that expiry passes the request check |
| RateLimiter.RetryAfterSuffices | cmd/mock-llm-api/main.go:159-172 | waiting the Retry-After seconds emitted for the milliseconds told always reaches the expiry and, while time remains, overshoots it by at most one second |
| RateLimiter.RetryHint | cmd/mock-llm-api/main.go:63-172 | after a refusal by the request limit, with any calls in between, a call of the key passes the request check if and only if it comes at or after the expiry, up to the first that does; waiting the emitted seconds is enough |
| RateLimiter.RetryCanBeOvertaken | cmd/mock-llm-api/main.go:63-172 | a run in which a caller that waited is refused, another call of the key having taken the place |
| JsonStrings.UnquoteEscape | cmd/mock-opencode/main.go:100 | reading back a marshalled string gives it with everything that is not UTF-8 replaced by U+FFFD |
| JsonStrings.EscapeIsBody | cmd/mock-opencode/main.go:100 | what is marshalled is a legal string body, at most six bytes for each byte |
| JsonStrings.UnquoteRaw | internal/opencode/client.go:248-252 | a string without escapes is read with everything that is not UTF-8 replaced by U+FFFD |
| CodePoints.ValidUtf8Iff | internal/opencode/client.go:248-252 | the byte tests accept a text if and only if it is the UTF-8 encoding of a sequence of code points without surrogates (RFC 3629, section 3) |
| CodePoints.EscapeFirstIs | cmd/mock-opencode/main.go:100 | how each code point is marshalled: the short escapes, `\u` for other control characters, `<`, `>`, `&` and the line separators, U+FFFD for a byte of no character, everything else as it is |
| CodePoints.EscapedPointRead | internal/opencode/client.go:248-252 | a code point written as `\u`, or as a pair of surrogates, is read as its UTF-8 |
| CodePoints.LoneSurrogateRead | internal/opencode/client.go:248-252 | half of a pair is read as U+FFFD |
| CodePoints.ShortFormRead | internal/opencode/client.go:248-252 | a two-character escape is read as the character it names |
| JsonStrings.SanitizeIffValid | cmd/mock-opencode/main.go:99-100 | the replacement changes a text if and only if it is not UTF-8, and then makes it longer |
| SseReader.ProcessSSEData | internal/opencode/client.go:247-263 | what a payload adds to the text and to the token count, read through float64; a payload that is no JSON object, or holds a number beyond float64, adds nothing |
| SseReader.ReadLines | internal/opencode/client.go:182-219 | the line loop equals the block-by-block reading: events up to the first `[DONE]`, their texts joined, their tokens summed, a heartbeat every ten events |
| SseReader.ReadSSEStream | internal/opencode/client.go:172-243 | the whole reader, with over-long lines, the unterminated tail and the header fallback |
| SseReader.DoneStops | internal/opencode/client.go:191-193 | nothing after the first `[DONE]` is looked at |
| SseReader.TextsAppend | internal/opencode/client.go:195-226 | the texts of the events are joined in their order and their tokens added up |
| SseEnds.ClosingChangesNothing | internal/opencode/client.go:221-242 | for every stream without a line too long and every header, reading it and reading it with two newlines after it give the same content and tokens |
| SseEnds.NothingAfterDone | internal/opencode/client.go:191-193 | after a `data: [DONE]` event any bytes may follow, even a line too long: the result is that of the stream before it |
| SseEnds.HeaderIsFallback | internal/opencode/client.go:229-240 | the header's count replaces a zero and nothing else, and not when a line was too long |
| SseEnds.TooLongIff | internal/opencode/client.go:173-175 | scanning fails if and only if 1 048 576 bytes stand without a newline |
| SseEvents.EventRead | internal/opencode/client.go:247-263 | whatever an event's blanks and other members, its text is what `content` and `text` say, its tokens are the `total_tokens` of its `usage` |
| SseEvents.LookupIsLast | internal/opencode/client.go:248-257 | a member is found if and only if there is one of that name, and then it is the last |
| SseEvents.TextFields | internal/opencode/client.go:250-255 | the strings of the last `content` and the last `text` member, in that order |
| SseEvents.DecimalRead | internal/opencode/client.go:257-258 | a number of the grammar stands for its digits, fraction included, times ten to the power of its exponent less the digits of the fraction |
| SseEvents.UndecAppend | internal/opencode/client.go:257-258 | digits are read by their places |
| SseEvents.NumberRead | internal/opencode/client.go:257-258 | a token count is the integer part, cut towards zero, of a float64 than which none is nearer to that decimal |
| Floats.FloatPartIsNearest | internal/opencode/client.go:257-258 | the same for any fraction that does not overflow |
| Floats.HalfEvenIsNearest | internal/opencode/client.go:257-258 | rounding takes a nearest integer, and of two the even one |
| Floats.LimitIs | internal/opencode/client.go:249 | numbers from the midpoint of 2^1024 - 2^971 and 2^1024 on make the event unreadable |
| SseStandard.AgreesWithStandardIff | internal/opencode/client.go:185-219 | the reader dispatches exactly the events of WHATWG HTML section 9.2.6 if and only if in every closed block all data fields are written `data: ` and the first is not empty |
| SseStandard.LinesAgree | internal/opencode/client.go:182-183 | without lone returns and over-long lines the scanner's lines are the standard's |
| SseStandard.ReadsTheStandardEvents | internal/opencode/client.go:172-243 | a UTF-8 stream without byte order mark and lone returns, of steady blocks and ending with a blank line, is read as the standard interprets its bytes, up to `[DONE]` |
| SseStandard.SpaceIsNeeded | internal/opencode/client.go:205-206 | without the space a data line is an event by the standard and nothing to the reader |
| SseStandard.LeadingEmptyLineIsDropped | internal/opencode/client.go:211-214 | after an empty first data line the standard keeps a newline the reader drops |
| SseStandard.UnterminatedIsDispatched | internal/opencode/client.go:221-227 | a data line at the very end of a stream is no event by the standard, and its payload is what the reader returns |
| SseWriter.ServeMessage | cmd/mock-opencode/main.go:56-132 | what follows `OUTPUT:`, or the fixed answer with the message, is sent: one frame for each 100 bytes, one empty chunk for an empty output, the usage frame and `[DONE]` |
| SseWriter.StreamText | cmd/mock-opencode/main.go:92-132 | the body is the frames of the chunks, the usage frame and `data: [DONE]` |
| SseWriter.ContentFrame | cmd/mock-opencode/main.go:100-101 | the text of a content frame |
| SseWriter.UsageFrame | cmd/mock-opencode/main.go:119-128 | the text of the usage frame around its counts |
| SseWriter.UsageText | cmd/mock-opencode/main.go:121-125 | completion, prompt and total tokens are a sixth, a twelfth and a quarter of the length |
| SseWriter.SentSizes | cmd/mock-opencode/main.go:92-117 | all chunks but the last have 100 bytes, the last has 1 to 100; an empty output is one empty chunk |
| SseRoundTrip.SentConcat | cmd/mock-opencode/main.go:92-117 | put together the chunks are the output |
| SseRoundTrip.ScanFrames | internal/opencode/client.go:182-203 | framed payloads are scanned back as their data lines and blank lines |
| SseRoundTrip.ContentEventRead | cmd/mock-opencode/main.go:99-101 | a content event reads back as its chunk, sanitized, and costs no tokens |
| SseRoundTrip.UsageEventRead | cmd/mock-opencode/main.go:119-128 | the usage event carries no text and a quarter of the length in tokens, rounded to float64 |
| SseRoundTrip.FloatIsExact | internal/opencode/client.go:257-258 | the way through float64 changes no token count up to 2^53 |
| SseRoundTrip.ReadStream | cmd/mock-opencode/main.go:92-132 | for every output: the sanitized chunks put together, len/4 tokens (as float64) or the header if that is zero, no error, the exact number of heartbeats |
| SseRoundTrip.RoundTripIff | cmd/mock-opencode/main.go:92-132 | the output comes back unchanged if and only if it is UTF-8 and no chunk boundary falls inside a character |
| SseRoundTrip.CutCharacterIsLost | cmd/mock-opencode/main.go:93-99 | a UTF-8 output that does not come back |
| TaskWorkflow.PromptAndValidate | internal/workflow/task.go:85-132 | over all answers: at most three prompts, each retry quoting the refused output and its feedback, every answered prompt validated once, tokens of all answered prompts summed |
| TaskWorkflow.SuccessIsSound | internal/workflow/task.go:92-137 | success with a schema means the result is the extraction of the last answer and conforms, and every earlier answer was refused |
| TaskWorkflow.FailureIsSound | internal/workflow/task.go:85-131 | a failed validation took exactly three prompts and three validations, all refused, and carries the last feedback; any other failure is that of the last prompt asked, every answer before it refused |
| TaskWorkflow.SpentIs | internal/workflow/task.go:89-125 | the tokens are those of the answered prompts, at most three, added up |
| TaskWorkflow.ValidateOutput | internal/workflow/activities.go:108-130 | the activity's own failure with its message, otherwise the result for the output as `Validation.ValidateWithFeedback` states it |
| TaskWorkflow.AllocateSandboxActivity | internal/workflow/activities.go:41-50 | an idle or new sandbox is granted, or the pool is unchanged |
| TaskWorkflow.ReleaseSandboxActivity | internal/workflow/activities.go:144-153 | one try of the release |
| TaskWorkflow.ReleaseSandbox | internal/workflow/task.go:25-35 | the tries together come to one release that succeeds if and only if some delete does |
| TaskWorkflow.CodingTaskWorkflow | internal/workflow/task.go:16-138 | over every outcome: nothing allocated and nothing changed, or a sandbox granted and used; then, if and only if it has a name, it is released exactly once, as the last call, and no new active entry stays: the granted entry is gone, or releasing when every delete failed, and every other entry is unchanged |
| TaskWorkflow.CallsEnd | internal/workflow/task.go:22-37 | the deferred release is the last call and the only release, and adds neither prompts nor validations |
| TaskWorkflow.GrantEnds | internal/workflow/task.go:22-54 | a grant followed by the release leaves no new active entry if and only if the name is not empty |
| Routing.ExtractSessionID | internal/router/handler.go:109-129 | header before cookie before query; empty if and only if no enabled place has a value |
| Routing.ExtractUserID | internal/router/handler.go:133-138 | the value of X-User-ID if it has one, else `anonymous` |
| Routing.Router.ServeHTTP | internal/router/handler.go:54-75 | a known session is forwarded to its sandbox with pool and queue unchanged, any other request is assigned one |
| Routing.Router.HandleAllocateAndProxy | internal/router/handler.go:79-105 | forwarded to a granted sandbox that the session handed out finds at once, or queued at the end when exhausted, or failed with nothing changed |

## Left out

- Kubernetes provider and reconciler, HTTP transport and proxying, middleware, configuration, telemetry, metrics: plumbing around the core.
- The JSON Schema library: `check` is an arbitrary function from text and schema to an optional complaint.
- CodingTaskWorkflow: runs cut off by an execution timeout and lost completions are not modelled; other users of the pool do not run in the middle of a workflow (interleavings are the subject of `PoolMachine`); the scheduler's retries are sequences of attempts of any outcome; a retry prompt is a record of what it quotes, without its exact wording; the source's one function is split at its deferred release.
- AllocateSandboxActivity: the fallback for activities without a pool, which only makes up a name, is not modelled.
- ReleaseSandboxActivity: the fallback for activities without a pool, which does nothing, is not modelled.
- PoolMachine: a user id is written together with its session, since no step reads it; field reads and writes are taken to be atomic although the code does not synchronise them.
- ProcessSSEData: a token count outside int64 converts to an unspecified value in Go; the model keeps the number.
- ReadStream: outputs are at most 2^63 - 1 bytes long, as in Go.
- ReadSSEStream: read errors of the transport and a missing heartbeat function.
- ServeMessage: the delays between chunks, the early return when the client disconnects and the plain-JSON answer of servers that cannot stream.
- AgreesWithStandardIff: compares the two from lines on; how bytes become lines is the subject of `LinesAgree`.
- ReadsTheStandardEvents: the standard decodes a stream as UTF-8 first; streams that are not UTF-8, begin with a byte order mark or hold lone returns are not compared, nor are the fields other than data, which the reader ignores.
- ExtractJSON: the return of the uncompacted candidate when compaction fails is omitted, since compaction never fails on valid JSON.
- ExtractUserID: header names are taken to be in the canonical form in which Go stores them; the same goes for ExtractSessionID.
- PruneTime: the slice is a sequence, so the code's sharing of the backing array with stale elements past its end is not represented; the write-behind-read order of the loop is.
- DebugUsage: keys that are masked to the same text overwrite each other in the code's answer; the model answers by key.
- Check: sums of tokens are unbounded integers, not 64-bit ones, and token estimates are not negative.
- The order in which maps are iterated is arbitrary in the model as in the code.
- `internal/router/queue.go` beyond appending an entry and `internal/router/tasks.go`: easy members; nothing calls `NotifyNext`, so nothing is claimed about queued requests being served.
- `Heartbeat` has no caller, so nothing says that traffic keeps a session alive; the pool cap is per process.
