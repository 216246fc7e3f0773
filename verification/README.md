# Verification of the archive viewer's streaming core

This project models the stateful heart of `crates/core` — how peer-to-peer
messages are paired, counted, binned, timed, retained and decoded while an
archive streams through — and the track layout that the web page draws from the
result. It proves, for every archive and every page of one, what that code
promises about its own books.

The source works by changing state step by step, so each core object is a class
here (`Tracker`, `Analysis`, `Histogram`, `RecordDecoder`, `Latencies`, `Relay`,
`EventStore`) and each loop a method with invariants. Every such method is proved
against a function of the state before it, and the laws are lemmas about those
functions over whole runs. What such a function means is then told a second time,
from the messages, events or bytes themselves, in terms that do not use it
(`MatcherAnswers`, `ExchangeHistory`, `LedgerHistory`, `RelayHistory`,
`HistogramExactness`). Structures that the source nests by value are values
held in fields.

| files | what they model |
|---|---|
| `Basics` | options, bytes and a little arithmetic that several components share |
| `Exchanges` | the table of exchanges both matchers work from |
| `Matcher`, `MatcherSoundness`, `MatcherKeys`, `MatcherMemory`, `MatcherAnswers`, `MatcherPeers` | the windowed matcher: what a tie means, which request is chosen, what is still owed, what is forgotten when, which turns are answers and of what, why peers do not interfere |
| `Tracking`, `TrackerSoundness` | the one-slot tracker over a whole archive |
| `Refinement` | when the tracker finds what the windowed matcher finds |
| `Ledger`, `SweepTransparency`, `SweepFrequency` | the account kept for each exchange, what the sweep period does not change in it, and what it can |
| `ExchangeHistory`, `LedgerHistory` | the tracker and its account told from the history of messages and sweeps alone |
| `Histogram`, `HistogramExactness`, `HistogramRuns`, `HistogramBounds`, `HistogramGrid`, `HistogramTotals`, `HistogramClass` | adaptive binning: exact counts, the least resolution that fits, bounds, where the bins lie, totals, termination |
| `Timeline` | downsampling the histogram for a chart |
| `Varint`, `Framing`, `Decoder` | the incremental decoder of length-delimited records |
| `Latency`, `Percentile` | the power-of-two sketch, its merge, and how close its percentiles are |
| `RelayLog`, `Scorecard`, `RelayClass`, `RelayHistory` | who announced and delivered what, that every figure adds up, and all of it told from the messages alone |
| `Store` | retention under a byte budget |
| `Tracks`, `Lifelines` | blocks of activity and their tracks on the sequence diagram |

The exchange table is a parameter of the matchers' lemmas, so they hold for any
table; `Exchanges.EXCHANGES` holds the thirteen rows of the source.

## What the proofs turned up

* `histogram.rs` says its counts stay exact (lines 3-6). They do where a machine
  word has 64 bits (`HistogramRuns.NativeRunsAreExact`). Where it has 32, as on
  wasm32, the bin number is cut to 32 bits before it is compared (line 104), and
  one event at the epoch followed by one in June 2024 puts both in one bin
  (`HistogramRuns.ShortWordsMisplace`). `HistogramRuns.AddIsExact` says exactly
  when an addition is counted where a recount would put it, and
  `HistogramRuns.NarrowSpansNeverTrap` that no archive spanning under 13.6 years
  is affected. Totals stay exact in any case (`HistogramTotals.RunTallies`), and so
  does the bound on bins and widths (`HistogramBounds.RunIsBounded`).
* The unanswered total of a multi-reply exchange depends on when the tracker is
  swept: a request repeated after its window is charged if a sweep came between,
  and replaced unseen if none did (`SweepFrequency.ASweepBetweenCharges`). More
  sweeps never charge less (`SweepFrequency.MoreSweepsChargeNoLess`), and for the
  single-reply exchanges the total does not depend on them
  (`SweepTransparency.TotalsDoNotDependOnThePeriod`).
* In `match_turns`, the branch that skips a keyed request with nothing left to
  deliver (`exchange.rs:474`) never runs: such a request has been closed
  (`MatcherKeys.KeysAreAccountedFor`).
* The header of `latency.rs` describes twenty buckets, nine minutes and eighty
  bytes; the code has thirty-two buckets. The model follows the code.
* The store keeps chunk numbers, offsets and lengths in 32 bits. With a budget of
  up to 4 GiB that never shows (`Store.EventStore.BudgetKeepsNarrow`), and the web
  build allows at most 2 GiB (`crates/wasm/src/lib.rs:24`); beyond it,
  `Store.EventStore.Bytes` says exactly which events read back, and
  `Store.KeepAndLose` keeps one that does not.

## Model

| member | source | states |
|---|---|---|
| `Exchanges.TableIsUnambiguous` | crates/core/src/exchange.rs:46-177 | each row of the table is the one its request command opens: no command opens two exchanges |
| `Matcher.MatchTurns` | crates/core/src/exchange.rs:437-529 | the loop over a page finds the ties of the specification's run over the turns |
| `Matcher.AnswerTurn` | crates/core/src/exchange.rs:449-511 | the reply half of the loop body: ties, closed, trimmed and counted requests |
| `Matcher.FindBest` | crates/core/src/exchange.rs:449-491 | the nested search, bisecting sorted wanted lists, finds the specified best candidate |
| `Matcher.BinarySearch` | crates/core/src/exchange.rs:465-467 | bisecting a strictly sorted list finds a key exactly when the list has it |
| `Matcher.BestIsBest` | crates/core/src/exchange.rs:449-491 | the candidate found beats or ties every eligible open request by (hash match, oldest), and there is none only if no request is eligible |
| `Matcher.WantedStaysSorted` | crates/core/src/exchange.rs:458-526 | given sorted keys, every list the matcher bisects is sorted in every reachable state |
| `MatcherSoundness.RunIsSound` | crates/core/src/exchange.rs:437-529 | in every reachable state each tie joins an earlier request and a later reply of the same peer, opposite ways, with a reply command of the exchange the request opened, inside its window; no reply is tied twice and no single-reply request is; open lists hold at most 32 requests in order |
| `MatcherSoundness.EachTieIsTheBestChoice` | crates/core/src/exchange.rs:449-511 | a turn is tied exactly when some open request is eligible, and to one that no eligible request beats; an unhashed tie means no eligible open request hash-matched |
| `MatcherSoundness.TiedExactlyWhenEligible` | crates/core/src/exchange.rs:437-529 | over a whole page, a turn is a reply in the result if and only if an open request was eligible for it when it came |
| `MatcherKeys.RemainingMeans` | crates/core/src/exchange.rs:503-509 | what a request still waits for is its keys less those that arrived in replies tied to it |
| `MatcherKeys.KeysAreAccountedFor` | crates/core/src/exchange.rs:458-526 | in every reachable state an open request's wanted list is its keys minus the delivered ones, is never empty for a request that named something, and a tie between two messages that name something delivers a key not delivered before |
| `MatcherKeys.HashTiesAreBounded` | crates/core/src/exchange.rs:493-511 | hash ties of a request and keys it still waits for never exceed the keys it named |
| `MatcherKeys.HashTiesAtMostKeys` | crates/core/src/exchange.rs:437-529 | a request has at most as many hash ties as it named distinct keys |
| `MatcherMemory.NoneForgottenEarly` | crates/core/src/exchange.rs:395-402 | in every reachable state each request so far is still waiting, or needs no more replies, or has been followed by at least thirty-two more of its kind |
| `MatcherMemory.WaitsExactlyWhileNeeded` | crates/core/src/exchange.rs:505-526 | within thirty-two requests of its kind, a request waits if and only if it has had no answer or, where several may come, not all it named |
| `MatcherAnswers.AwaitedIsTied` | crates/core/src/exchange.rs:437-529 | over a page, told by turns alone: a reply of the same peer, the other way, in time, to a request that still needs one and has had fewer than thirty-two of its kind after it, is tied -- if the request or the reply names nothing, or the reply names something not delivered yet |
| `MatcherAnswers.TieIsTheBestAnswer` | crates/core/src/exchange.rs:437-529 | conversely each tie goes to a request that waited for that reply so, and to one no worse than any such request remembered: delivering to it comes first, then age, then place in the table, then the order sent |
| `MatcherPeers.RunMirrors` | crates/core/src/exchange.rs:437-529 | after any part of the page, the state for a set of peers is the state after their own turns alone, positions renamed |
| `MatcherPeers.PeersDoNotInterfere` | crates/core/src/exchange.rs:437-529 | the ties found for any set of peers in an interleaved stream are, renamed, exactly the ties of their own subsequence |
| `MatcherPeers.UndirectedTurnsDoNotMatter` | crates/core/src/exchange.rs:443-447 | leaving out turns without peer or direction changes nothing but positions |
| `Tracking.Tracker.Observe` | crates/core/src/exchange.rs:272-356 | one message's answer, displacement and opening, and the whole new state, as specified |
| `Tracking.Tracker.FindBest` | crates/core/src/exchange.rs:285-303 | the loop over the table finds the specified request |
| `Tracking.Tracker.Sweep` | crates/core/src/exchange.rs:364-383 | exactly the expired requests go, and each one that was never answered and whose exchange is not optional is reported once, in whatever order the map has |
| `TrackerSoundness.FollowingIsSound` | crates/core/src/exchange.rs:272-356 | over every archive each answer joins a reply to an earlier request of the same peer, the other way, that opened the exchange, inside its window; no single-reply request is answered twice |
| `TrackerSoundness.FollowsTheLatest` | crates/core/src/exchange.rs:314-332 | unless the cap turned a request away, what a slot holds is the latest request of its kind |
| `TrackerSoundness.BestIsOldest` | crates/core/src/exchange.rs:300-303 | a message that can answer several open requests answers the oldest, the first in the table among equally old ones |
| `TrackerSoundness.DisplacedIsReal` | crates/core/src/exchange.rs:336-345 | a displaced request is an earlier message of the sender's own, of the same kind and direction, and its age the time since |
| `TrackerSoundness.ReportedIsReal` | crates/core/src/exchange.rs:364-383 | so is what a sweep reports: an earlier message of that peer and direction that opened the exchange, with its age |
| `ExchangeHistory.OpenExactlyWhileWaiting` | crates/core/src/exchange.rs:272-383 | in every reachable state, the cap reached or not, a key is open exactly while it was asked, no sweep has come since with its window over, and it has had no answer or may have several; its slot holds when it was last asked and the answers since |
| `ExchangeHistory.AnswerTellsHistory` | crates/core/src/exchange.rs:285-313 | a message answers exactly the key that waits for it and was asked first, the elapsed time is since then, and it is first exactly when nothing answered it since |
| `ExchangeHistory.DisplacedTellsHistory` | crates/core/src/exchange.rs:314-345 | a request not turned away displaces the one of its own key, if that waits without an answer and silence is judged at once, with its age |
| `ExchangeHistory.TurnedAwayExactlyWhenFull` | crates/core/src/exchange.rs:315-351 | a request is turned away and counted if and only if 500,000 keys wait once the message has been answered for |
| `ExchangeHistory.FewRequestsAreAllKept` | crates/core/src/exchange.rs:221-229 | the map never holds more than the cap, nor more than the requests made, so a history of at most 500,000 requests has none turned away |
| `Refinement.RunsAgree` | crates/core/src/exchange.rs:272-356 | turn by turn the tracker's slot is the last of the matcher's list, all others being past their window, and the ties are the same |
| `Refinement.TrackerFindsTheSameTies` | crates/core/src/exchange.rs:437-529 | with timestamps in order, no keys, the cap not reached and each request sent when earlier ones of its kind are closed or past their window, tracker and matcher report the same pairs and times |
| `Ledger.EveryLineBalances` | crates/core/src/analysis.rs:268-336 | after any messages and sweeps, opened = answered + unanswered + open without reply + silently retired, for each exchange; silently retired is zero for non-optional single-reply exchanges, unanswered is zero for optional ones, and the two latency counts of a single-reply exchange sum to answered |
| `Ledger.UndeterminedIsExact` | crates/core/src/analysis.rs:69-80 | the saturating subtractions never stop short: undetermined is what is open without a reply plus what was silently retired |
| `Ledger.Analysis.ObserveExchange` | crates/core/src/analysis.rs:268-310 | one message is entered, and every 32,768th is followed by a sweep at its time; the books are those of the resulting history |
| `Ledger.Analysis.EndFile` | crates/core/src/analysis.rs:180-196 | the end of a file is a sweep at the last timestamp, if there was one, and nothing else to the books; the records the decoder hands over on finishing (lines 183-189) are entered before it, each as a message of `ObserveExchange`, and are outside this contract |
| `Ledger.Analysis.SweepExchanges` | crates/core/src/analysis.rs:313-324 | each reported request is charged once, to the side that stayed silent |
| `Ledger.Analysis.NoteUnanswered` | crates/core/src/analysis.rs:328-336 | an inbound request's silence is ours, an outbound one's the peer's; nothing else changes |
| `Ledger.TalliedCounts` | crates/core/src/analysis.rs:313-324 | charging a list of retired requests one by one adds, to each side of a line, the number of its distinct keys |
| `LedgerHistory.AccountTellsHistory` | crates/core/src/analysis.rs:268-336 | after any messages and sweeps: the requests, answers and charges of each exchange are those the history counts, silences of outbound requests the peers' and of inbound ones ours; and the two sketches are those of the times of the answers that came in, and of those that went out |
| `SweepTransparency.RunTrails` | crates/core/src/exchange.rs:364-383 | a run that turns no request away finds, message by message, what a tracker without sweeps or cap would find; it holds what that one holds less requests past their window, and their charges differ by exactly those |
| `SweepTransparency.SweepsDoNotChangeFindings` | crates/core/src/exchange.rs:364-383 | of two runs over the same messages in order of time, swept at any points and each with the cap not reached, no message's answer, first-reply mark or opening differs |
| `SweepTransparency.TotalsDoNotDependOnThePeriod` | crates/core/src/analysis.rs:264-324 | of two such runs, after a common closing sweep, the unanswered totals of non-optional single-reply exchanges are the same, however often each was swept |
| `SweepFrequency.LeftOverDoesNotDependOnThePeriod` | crates/core/src/analysis.rs:255-336 | of two such runs, every exchange, multi-reply ones included, has the same requests, the same answered, and the same sum of unanswered, silently retired and still open |
| `SweepFrequency.MoreSweepsChargeNoLess` | crates/core/src/analysis.rs:255-336 | of two runs over the same messages, the one with more sweeps charges no fewer requests to either side of any exchange |
| `SweepFrequency.ASweepBetweenCharges` | crates/core/src/exchange.rs:314-332 | a request of a multi-reply exchange repeated after its window is charged if and only if a sweep came between, with the same request left open |
| `Histogram.NestedFloor` | crates/core/src/histogram.rs:160-172 | dividing by a width and then by a factor is dividing by their product |
| `Histogram.HalfAsManyWanted` | crates/core/src/histogram.rs:139-163 | coarsening halves, rounding up, the bins wanted backwards, so the loop ends |
| `Histogram.AddKeepsRect` | crates/core/src/histogram.rs:83-115 | every row is exactly as long as the histogram is wide, before and after any event |
| `HistogramExactness.CoarsenIsExact` | crates/core/src/histogram.rs:165-172 | merging pairs leaves each bin with the recount at twice the width |
| `HistogramExactness.PrependIsExact` | crates/core/src/histogram.rs:146-158 | growing backwards by whole bins leaves each count where a recount from the earlier start puts it |
| `HistogramExactness.BumpIsExact` | crates/core/src/histogram.rs:95-107 | counting an event in a bin is exact if and only if that is the bin its time floor-divides to, or the first one for a time before the start |
| `HistogramExactness.ForwardIsExact` | crates/core/src/histogram.rs:103-114 | the forward loop counts an event exactly if and only if its bin number is not caught by the platform's word |
| `HistogramRuns.AddIsExact` | crates/core/src/histogram.rs:83-115 | adding keeps counts equal to a recount if and only if the event does not fall in the cut-word trap; then bins, rows, width and resolution stay sound too |
| `HistogramRuns.RunIsExact` | crates/core/src/histogram.rs:83-172 | after any events in any order outside the trap: each count is the number of events of that kind with that floor-divided index, at most 4096 bins, the range ends at the latest event, the width is 100 times a power of two, and it is 100 or the span exceeds 4095 times half of it |
| `HistogramRuns.ExactExactlyWhenNeverTrapped` | crates/core/src/histogram.rs:83-172 | for every word size and run, the counts are a recount's after each event if and only if no event meets the trap when it is added |
| `HistogramRuns.NarrowSpansNeverTrap` | crates/core/src/histogram.rs:103-114 | events at any date and in any order whose span is under a word's count of shortest bins, less one, never meet it: with 32-bit words, any archive spanning less than 13.6 years |
| `HistogramRuns.ShortTimesNeverTrap` | crates/core/src/histogram.rs:103-114 | nor do times below a word's count of shortest bins, the last 100 ms of that range included |
| `HistogramRuns.NativeRunsAreExact` | crates/core/src/histogram.rs:83-172 | with 64-bit words every run over 64-bit timestamps is exact, and doubling the width never overflows; the latter holds of shorter words too (`HistogramBounds.RunIsBounded`) |
| `HistogramRuns.ShortWordsMisplace` | crates/core/src/histogram.rs:104-104 | with 32-bit words, events at 0 and 1,717,986,918,400 ms land in one bin, where a recount finds one |
| `HistogramBounds.RunIsBounded` | crates/core/src/histogram.rs:83-172 | for every word size and every run over 64-bit timestamps, past the trap too, there are at most 4096 bins, the last begins at a 64-bit time, and the next doubling of the width does not overflow |
| `HistogramGrid.RunIsOnGrid` | crates/core/src/histogram.rs:87-92 | for every word size and run, the first bin begins on a whole number of shortest bins, and bins are whole numbers of them |
| `HistogramGrid.FirstEventAnchors` | crates/core/src/histogram.rs:87-92 | one event makes one shortest bin, begun on such a round time, that holds it |
| `HistogramGrid.AddShiftsWholeBins` | crates/core/src/histogram.rs:139-163 | from then on every add leaves the start or moves it back by whole bins of the width before |
| `HistogramRuns.StartNearZeroStays` | crates/core/src/histogram.rs:139-163 | once the start is less than a bin from zero it never moves again |
| `HistogramClass.Histogram.Add` | crates/core/src/histogram.rs:83-115 | the method with its loops reaches the specified state |
| `HistogramClass.Histogram.ExtendBackwards` | crates/core/src/histogram.rs:139-163 | the backward loop terminates in the specified state |
| `HistogramClass.Histogram.Coarsen` | crates/core/src/histogram.rs:165-172 | pairs are merged in place, the width doubled, the start kept |
| `HistogramClass.Histogram.SetBins` | crates/core/src/histogram.rs:124-130 | every row is resized with zeros |
| `Timeline.Downsample` | crates/core/src/view.rs:113-137 | the nested accumulating loops build the specified chart, empty if there are no bins or no columns allowed |
| `Timeline.ColumnsFit` | crates/core/src/view.rs:123-124 | for any positive limit there is at least one column and never more than the limit |
| `Timeline.MergeIsLeast` | crates/core/src/view.rs:123-124 | merging some number of bins gives no more columns than asked for if and only if it is at least the number merged |
| `Timeline.MergedRecount` | crates/core/src/view.rs:126-136 | merging whole bins of exact counts gives the exact recount at the coarser width |
| `Timeline.ChartIsExact` | crates/core/src/view.rs:113-137 | each cell is the number of events of the slot's kinds at the coarser floor-divided index |
| `HistogramTotals.RunTallies` | crates/core/src/histogram.rs:96-101 | for every word size and run, even past a misplaced count, each row adds up to the events of its kind and the total is their number |
| `HistogramTotals.CountedRaisesOne` | crates/core/src/histogram.rs:96-114 | whichever bin an event is counted in, its kind's row gains one and every other row keeps its sum |
| `Timeline.SlotTotalIsExact` | crates/core/src/view.rs:113-137 | a slot's columns add up to the events of its kinds, wherever those events are binned |
| `Timeline.TimelineLosesNothing` | crates/core/src/view.rs:155-169 | one slot per group, for every word size and run: the whole chart adds up to the number of events added |
| `Varint.ReadVarint` | crates/core/src/decode.rs:326-343 | the loop reads the specified value, and a value always fits 64 bits |
| `Varint.BitsDoNotOverlap` | crates/core/src/decode.rs:333-334 | each byte's seven bits are a multiple of the place value that all read before lies below, so setting them is adding them, and ten bytes never overflow 64 bits |
| `Varint.VarintRoundTrip` | crates/core/src/decode.rs:324-343 | for every 64-bit value, reading inverts the encoding whatever follows it, and every strict prefix of the encoding reads as incomplete |
| `Varint.ReadIsStable` | crates/core/src/decode.rs:326-343 | once a varint reads as a value or as malformed, more bytes change nothing |
| `Varint.ReadMeans` | crates/core/src/decode.rs:326-343 | told by bytes: refused exactly if nine bytes go on and the tenth exceeds one; incomplete exactly if fewer than ten are there and all go on; otherwise the value of seven bits a byte, needlessly long encodings included |
| `Framing.ParseGoesOn` | crates/core/src/decode.rs:283-307 | parsing a string and then what was left of it with more bytes is parsing the whole; an error stays where it was |
| `Framing.RestIsBarren` | crates/core/src/decode.rs:283-307 | no whole record is left over |
| `Framing.WholeMeans` | crates/core/src/decode.rs:296-299 | the payloads wholly before a cut are the longest run whose frames end by it |
| `Framing.CutFramesParse` | crates/core/src/decode.rs:283-307 | framed payloads cut anywhere parse to exactly those wholly before the cut, with the remainder left over and no error |
| `Framing.ErrorMeans` | crates/core/src/decode.rs:283-307 | reading stops as malformed exactly if what is left begins with an over-long varint, as too large exactly if it announces a length over the limit, and without error exactly if it is less than a whole record |
| `Framing.FramesThenError` | crates/core/src/decode.rs:283-307 | framed payloads with anything unreadable after them come out whole, with the error of what follows |
| `Decoder.RecordDecoder.Push` | crates/core/src/decode.rs:162-166 | while sniffing nothing is emitted; from then on all records of everything fed so far have been emitted, each once and numbered in order, up to the first error |
| `Decoder.RecordDecoder.Finish` | crates/core/src/decode.rs:169-191 | the rest of the records and the ending of everything fed, as a one-shot parse has them |
| `Decoder.RecordDecoder.Scan` | crates/core/src/decode.rs:283-315 | scanning the unread part of the buffer, with compaction, is parsing it |
| `Decoder.FirstErrorStays` | crates/core/src/decode.rs:289-295 | the first error, and the records before it, are those of the whole input however much more would have come |
| `Decoder.SniffedMeans` | crates/core/src/decode.rs:230-247 | a file is zstd exactly if it begins with the four bytes 28 B5 2F FD, or is shorter and said to be |
| `Decoder.EndingMeans` | crates/core/src/decode.rs:169-191 | the others fail with the error that stopped the reading, or complete, truncated exactly if bytes are left |
| `Decoder.Decode` | crates/core/src/decode.rs:162-315 | the records, their numbers and the ending depend only on the concatenation of the chunks |
| `Decoder.DecodeFramed` | crates/core/src/decode.rs:169-191 | framed payloads, cut anywhere and fed in any chunks, come out, numbered from zero, as exactly those wholly before the cut; trailing bytes are the remainder, and truncated means there are some |
| `Latency.BucketsPartition` | crates/core/src/latency.rs:119-132 | for every 64-bit latency, its bucket is i if and only if it lies in bucket i's range |
| `Latency.GatheredIsSketch` | crates/core/src/latency.rs:29-40 | samples added one by one give saturated bucket counts, count, saturated sum, least and greatest of the samples |
| `Latency.MergedIsSketch` | crates/core/src/latency.rs:100-115 | merging two sketches gives the sketch of the concatenated samples, saturation included |
| `Latency.OrderDoesNotMatter` | crates/core/src/latency.rs:29-40 | a sketch depends on which samples there were, not on their order |
| `Percentile.LocateFinds` | crates/core/src/latency.rs:81-86 | the bucket where the running count reaches a rank is the one the sample of that rank fell in |
| `Percentile.EstimateIsClose` | crates/core/src/latency.rs:77-97 | with no saturated bucket the estimate lies between least and greatest sample, and differs from the sample of that rank by at most its bucket's width unless that is the overflow bucket |
| `Percentile.EstimateIsToldBySamples` | crates/core/src/latency.rs:77-97 | with no saturated bucket the estimate is read as far into its bucket as the rank is into that bucket's samples, rounded down, the last of them reading the bucket's end, and kept within the least and greatest sample |
| `Percentile.RankIsLeast` | crates/core/src/latency.rs:81-81 | the rank asked for is the least, from one, that is at or above the share of the count |
| `Percentile.ShortBucketsReadGreatest` | crates/core/src/latency.rs:96-96 | where saturated buckets hold fewer than the rank, the greatest sample is read |
| `Percentile.PercentilesAreMonotone` | crates/core/src/latency.rs:77-97 | a higher percentile never reads lower, whether or not buckets saturated |
| `Percentile.Latencies.Add` | crates/core/src/latency.rs:29-40 | the bucket array and totals after one sample, as specified |
| `Percentile.Latencies.Merge` | crates/core/src/latency.rs:100-115 | the bucket loop merges another sketch in, which keeps its own state |
| `Percentile.Latencies.PercentileMs` | crates/core/src/latency.rs:77-97 | the loop with its running count returns the specified estimate, in exact arithmetic, and nothing for an empty sketch |
| `RelayLog.TallyIsSummary` | crates/core/src/relay.rs:57-77 | counting a log entry by entry gives the sketches of all its samples and the sums of its figures |
| `RelayLog.SplitTally` | crates/core/src/relay.rs:89-99 | splitting a log between two groups of peers and merging their records gives the record of both |
| `RelayLog.FiledAlikeExactlyWhenAlike` | crates/core/src/relay.rs:294-297 | byte strings of one length make the same number exactly if they are equal, so two hashes are filed alike exactly if their first eight bytes are |
| `Scorecard.RunAgrees` | crates/core/src/relay.rs:174-290 | over every run each peer's record is the tally of its own entries and the running figures are the tally of all |
| `Scorecard.PeersAddUp` | crates/core/src/relay.rs:149-155 | over every run, the peers' records merged in any order hold the running lag and wait sketches, announcements and deliveries less the untracked ones, duplicates and their bytes |
| `Scorecard.FactorIsPerDistinctDelivery` | crates/core/src/relay.rs:163-170 | deliveries less duplicates are the distinct items delivered plus deliveries left untracked, despite saturating counters and two hashes; the duplicate factor divides by that |
| `RelayHistory.RunTells` | crates/core/src/relay.rs:174-290 | after any messages, every item's first time and counts, every log entry, and the counts of announcements, deliveries, bytes and untracked are what the messages tell: each under the hash it was first known by, timed from the first message that speaks of relay |
| `RelayHistory.EitherHashFindsTheItem` | crates/core/src/relay.rs:235-290 | after any messages, a delivery whose txid is known, or else whose wtxid is, adds no item, raises that one's deliveries, saturating, and is logged as a duplicate or as first, timed if it had been announced; only otherwise may an item be added, under the txid |
| `RelayClass.Relay.Announce` | crates/core/src/relay.rs:199-232 | the loop over an inventory reaches the specified state |
| `RelayClass.Relay.Deliver` | crates/core/src/relay.rs:235-290 | a delivery, looked up under either hash, reaches the specified state |
| `RelayClass.Relay.Totals` | crates/core/src/relay.rs:149-155 | folding the peers in the map's order, whatever it is, gives the running figures |
| `Store.EventStore.Push` | crates/core/src/store.rs:135-173 | an event is kept if and only if retention has not stopped, its cost fits, and memory is there; the reason for stopping is recorded and lasts; kept events stay as they were |
| `Store.EventStore.VerdictMeans` | crates/core/src/store.rs:145-152 | retention stops for the budget exactly if one event more would cost more than it, and for want of memory exactly if not and there is no room for its row or its bytes |
| `Store.EventStore.ChunksAreUsedUp` | crates/core/src/store.rs:209-229 | a new chunk was begun only for a payload that would have taken the last one past 4 MiB |
| `Store.EventStore.ReserveChunk` | crates/core/src/store.rs:209-229 | room is found exactly when the last chunk has it, which is then kept, or a new chunk of at least 4 MiB and the payload is granted; no written byte moves |
| `Store.EventStore.BytesUsed` | crates/core/src/store.rs:129-131 | what is reported is what the kept events cost, and never exceeds the budget |
| `Store.EventStore.Row` | crates/core/src/store.rs:231-241 | row i is the i-th kept event's columns, and there is none past the last |
| `Store.EventStore.Bytes` | crates/core/src/store.rs:244-249 | bytes i are the i-th kept event's payload if and only if it is under 4 GiB and lies where its place, cut to 32 bits, says; so never if it has 4 GiB or more, and always with a budget of at most 4 GiB |
| `Store.EventStore.LongPayloadComesBackCut` | crates/core/src/store.rs:154-163 | a payload at a place the columns can name comes back as its first bytes only, as many as its length modulo 4 GiB |
| `Store.KeepAndLose` | crates/core/src/store.rs:135-173 | a payload of 4 GiB or more can be kept with retention still going on, and what reads back is not that payload |
| `Store.EventStore.BudgetKeepsNarrow` | crates/core/src/store.rs:77-81 | with a budget of at most 4 GiB the 32-bit columns always can |
| `Store.LongestThatFits` | crates/core/src/store.rs:145-152 | absent allocation failure, what is kept is the longest beginning of what was offered whose cost, 31 bytes and the length each, fits |
| `Store.SlicesAreApart` | crates/core/src/store.rs:154-163 | the events' slices of the chunks never overlap, and lie in order |
| `Store.WrittenPacks` | crates/core/src/store.rs:154-163 | after a write the chunks joined are still the payloads joined, each slice in place and end to end |
| `Lifelines.ExchangeBlocks` | web/index.html:2853-2873 | one block for each request that was answered, in order, with all its replies, ending at the latest, on the lifeline of the end the request went to |
| `Lifelines.RepliesMean` | web/index.html:2855-2861 | a block's replies are the ties of its request and no others |
| `Lifelines.BlocksShareNoRow` | web/index.html:2864-2871 | of ties the matcher found, no row is in two blocks of one lifeline |
| `Lifelines.BlocksStandWhereAnswered` | web/index.html:2865-2868 | of ties the matcher found, the replies of a block on our lifeline went out and its request came in, and the other way round on the peer's |
| `Lifelines.Gather` | web/index.html:2899-2917 | a lifeline's spans are its blocks and, alone, each message strictly inside a block that no block of that lifeline has and that is no connection event, in order |
| `Lifelines.DrawnExactlyWhen` | web/index.html:2899-2911 | a row stands on a lifeline exactly if it is the request or a reply of a block there, or lies between a block's request and last reply and is no connection event, and then it stands alone |
| `Lifelines.LifelineTracks` | web/index.html:2894-2928 | both lifelines are laid out so, each span on the track the greedy rule gives it, each row on its span's |
| `Lifelines.OverlappingSpansStandApart` | web/index.html:2875-2893 | of ties the matcher found, with no more spans than tracks over any row, a row of a span is on that span's track and not on that of any span it overlaps, so a stray is never drawn on the block around it |
| `Tracks.InnerTracksAreClear` | web/index.html:2913-2926 | spans on a track other than the outermost never overlap |
| `Tracks.ClearExactlyWhenShallow` | web/index.html:2913-2926 | no two spans of a track overlap if and only if no row is covered by more spans than there are tracks |
| `Tracks.UsesNoSpareTrack` | web/index.html:2913-2926 | no more tracks are used than spans cover the busiest row |
| `Tracks.TracksAreGreedy` | web/index.html:2917-2924 | each span's track is the first whose latest span has ended before it, or the outermost if none has, which determines every track |
| `Tracks.CarriedByItsSpan` | web/index.html:2925-2925 | with no row in two spans, a row's track is its span's |
| `Tracks.CarriedBySome` | web/index.html:2925-2925 | only rows of spans have a track |

## Left out

- zstd: decompression and recovery of an unfinished frame drive a library that is
  not part of this model; the decoder is modelled up to the sniffing and on the
  uncompressed path.
- Protobuf decoding, kind classification, payload keys, peers, autonomous
  systems: a message's peer, command, direction, time and sorted keys are given.
- Queries, their cache, scanning and JSON in `view.rs`; drawing in the web page.
- Capacity handed back after compaction or on stopping: it is not observable.
- Allocation: whether columns can grow and how much a chunk request is granted
  are parameters of `Push`.
- Widths of plain counters: counters the source adds to without saturation are
  unbounded here; saturating ones saturate.
- The tracker's key type and the order of hash maps: peers are numbers, and what
  comes out of a map may come in any order.
- `Relay.win_ratio`, `wasted_share` and mean latency: quotients of figures
  already proved.
- Refinement.TrackerFindsTheSameTies: its condition on requests of a kind is
  sufficient, not necessary; where requests are pipelined the two matchers are
  meant to differ.
- Percentile.EstimateIsClose: `f64` arithmetic is exact arithmetic here, over the
  rationals for the rank and in whole milliseconds for the interpolation.
- Percentile.EstimateIsToldBySamples: likewise.
- Percentile.RankIsLeast: likewise, the share a real number.
- Percentile.Latencies.PercentileMs: likewise; the source rounds the rank and the
  interpolation in `f64`.
- Percentile.PercentilesAreMonotone: likewise, and the fraction asked for is a
  real number, never NaN.
- Scorecard.FactorIsPerDistinctDelivery: the factor is the exact quotient.
- Ledger.Analysis.EndFile: the records the decoder hands over on finishing
  (`analysis.rs:183-189`) are not part of it; they are further messages of
  `ObserveExchange`, made before it.
- Store.EventStore.Push: the sum compared with the budget is not bounded to 64
  bits, which matters only for budgets near that limit.
- Lifelines.ExchangeBlocks: the library's sort is insertion into place; requests
  are distinct, so the sorted order is unique. The same holds in `Gather`, which
  visits covered rows by counting up rather than by sorting their set.
- Lifelines.LifelineTracks: takes blocks as `ExchangeBlocks` makes them, as its
  only caller does; fields the page sets on shared objects are results here.
- HistogramClass.Histogram.Add: kinds are not bounded to 16 bits.
