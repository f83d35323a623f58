# WikiLoader core, modelled in Dafny

WikiLoader turns a Wikipedia XML dump into two CSV files for a graph
database: `nodes.csv` has one row per page and `links.csv` one row per
outbound link. A reader thread walks the dump's XML nodes. It cuts the
`page` elements into chunks of 400, wraps each chunk in a `<mediawiki>`
element and puts the chunks on an input queue. Sixteen worker threads parse
the chunks into batches of pages and put the batches on an output queue.
One writer thread turns the batches into rows. A `Progress` tracker counts
pages, keeps a 30-second window of (time, count) samples to compute the
processing rate, and holds what the terminal display shows.

This project models that core:

- **`Queue` (ts_queue.dfy).** `TSQueue<T>` is a class over a `seq<T>`
  buffer and the one-way `finished` flag. The condition-variable wait in
  `pop` becomes its precondition: the buffer is non-empty or the queue is
  finished.
- **`Telemetry` (progress.dfy).** This is the `Progress` class with its
  fields and initial values, and `increment`, `updateProcessingRate`,
  `setFileProgress` and `finish`. The rolling window is specified by the
  value functions `Evict` and `RateAfter`. The history invariant
  `HistoryBelow` and the window bound are proved about those functions.
- **`Display` (progress_display.dfy).** This covers `formatDuration`, with
  C++ truncating division written out, and the choice the display makes
  between a duration, "unknown" and "calculating...". Each printed
  counter, and each printed non-negative duration, is proved to read back
  as the value it shows.
- **`Chunking` (chunking.dfy).** This gives the chunks the reader must
  queue, as a function of the node events.
- **`Rows` (csv_rows.dfy).** This gives the rows the writer must write, as
  a function of the batches. `Decimal` (decimal.dfy) and `Seqs` (seqs.dfy)
  are small supporting modules.
- **`Pipeline` (pipeline.dfy).** This holds the loops of `xmlReader`,
  `pageProcessor` and `csvWriter`. Each is an imperative method proved
  against the functions above. `parseFileParallel` and `main` compose them.

The model runs the threads one after another, in the order their hand-offs
allow:

1. the reader fills the input queue, which is then marked finished;
2. one worker drains it into the output queue, which is then marked
   finished;
3. the writer drains the output queue.

A pool of workers can deliver the batches in any order.
`Rows.BatchOrderIrrelevant` shows that any reordering of the batches writes
the same rows, up to order.

Time is an integer number of milliseconds, passed in wherever the source
reads `system_clock::now()`. The XML reader is a sequence of
`(name, outerXml)` events. The SAX parser is a function from a chunk to a
batch of pages, passed in as a parameter. The CSV files are returned as
strings.

src/main.cpp:129-130 deletes `links.csv` and `nodes.csv` inside
`parseFileParallel`, which `main` does not call without a path. So
`Pipeline.Run` writes and removes nothing in that case.

## Model

| member | source | states |
|---|---|---|
| Queue.TSQueue.constructor | lib/TSQueue.hpp:17-21 | A new queue has an empty buffer and is not finished. |
| Queue.TSQueue.SetFinished | lib/TSQueue.hpp:24-28 | The flag becomes true and the buffer is untouched. A second call therefore changes nothing, and no operation clears the flag (Push and Pop keep it). |
| Queue.TSQueue.Push | lib/TSQueue.hpp:30-35 | The item is appended at the tail. The earlier items and the flag are unchanged. |
| Queue.TSQueue.Pop | lib/TSQueue.hpp:37-49 | It may be called only when the wait predicate holds (non-empty or finished). It succeeds exactly when the buffer was non-empty, finished or not. On success it yields the head and leaves the tail. On failure the queue is finished and empty, nothing changes, and the caller's item is kept. |
| Queue.TSQueue.Empty | lib/TSQueue.hpp:51-54 | The result is true exactly when the buffer is empty. |
| Queue.TSQueue.Size | lib/TSQueue.hpp:56-59 | The result is the buffer's length. |
| Queue.PushFinishDrain | lib/TSQueue.hpp:30-49 | Pushing a sequence, finishing, then popping until failure delivers exactly the pushed items in push order, and only then end of stream. |
| Telemetry.StaleCount | src/progress.cpp:37-40 | The eviction loop stops after the leading run of samples older than the cutoff. All of them are older, and the next one, if any, is not. |
| Telemetry.StaleCountUnique | src/progress.cpp:38-40 | That stopping point is the only one with those two properties. |
| Telemetry.EvictDropsStale | src/progress.cpp:38-40 | Front-to-back eviction keeps exactly the suffix after the stale run, so it removes only from the front. |
| Telemetry.DropStale | src/progress.cpp:37-40 | The `while`/`pop_front` loop leaves exactly `Evict(history, cutoff)`. |
| Telemetry.EvictKeepsRecentLast | src/progress.cpp:34-40 | A last sample that is not older than the cutoff survives and still ends the history. |
| Telemetry.EvictLeavesWindow | src/progress.cpp:37-40 | With timestamps in order, no kept sample is older than the cutoff. |
| Telemetry.SuffixKeepsOrder | src/progress.cpp:38-40 | Dropping from the front keeps counts and times non-decreasing. |
| Telemetry.AppendKeepsOrder | src/progress.cpp:34 | Appending a sample no smaller than the last keeps the ordering, for counts and for times. |
| Telemetry.EvictionKeepsNewest | src/progress.cpp:34-40 | After appending a sample, eviction stops at `StaleCount`, and the new sample is kept as the last one. |
| Telemetry.EvictionKeepsCounts | src/progress.cpp:32-40 | What is kept has non-decreasing counts, starting no lower than the old oldest count. |
| Telemetry.EvictionKeepsWindow | src/progress.cpp:34-40 | With an ordered clock, what is kept is time-ordered and lies within the 30 s up to the new sample. |
| Telemetry.RateIsSlope | src/progress.cpp:42-53 | With under two samples, or with the newest no later than the oldest, the rate is unchanged. Otherwise rate × Δms = Δcount × 1000: the slope in pages per second. |
| Telemetry.RateNonNegative | src/progress.cpp:43-52 | A window whose counts grow never yields a negative rate. |
| Telemetry.AppendEvictKeepsHistory | src/progress.cpp:32-40 | Appending a larger count and evicting keeps the history invariant (growing counts, positive oldest, newest at most the counter). The new sample ends the history. |
| Telemetry.RecordSample | src/progress.cpp:31-40 | The same, stated on `Evict`: appending (now, counter) and evicting keeps the invariant and ends in that sample. |
| Telemetry.RecordSampleWindow | src/progress.cpp:31-40 | With an ordered clock, every kept sample lies in [now − 30 s, now], in time order. |
| Telemetry.NextWindow | src/progress.cpp:27-54 | The body of `updateProcessingRate` on values. The new history is `Evict(old + [(now, count)])` and the new rate is `RateAfter` of it. It keeps the invariant and a non-negative rate, ends in the new sample, and keeps the 30 s window under an ordered clock. |
| Telemetry.Progress.constructor | src/progress.hpp:20-26 | Initial state: counter 0, rate 0.0, percentage −1.0 (unknown), empty history, render flag true, start time = the clock. The invariant holds. |
| Telemetry.Progress.Increment | src/progress.cpp:14-17 | The counter rises by exactly 1. The history gains the sample (now, new counter) and is evicted, and that sample is retained. The rate is recomputed from the new window. Nothing else changes. |
| Telemetry.Progress.UpdateProcessingRate | src/progress.cpp:27-54 | The history becomes `Evict(old + [(now, counter)], now − 30 s)` and the rate becomes `RateAfter` of it. The invariant is kept, and under an ordered clock the window bound holds. Counter, percentage, flag and start time are unchanged. |
| Telemetry.Progress.SetFileProgress | src/progress.cpp:19-23 | A value in [0, 100] is stored and any other value is ignored. So the −1 sentinel can never be stored again once left. |
| Telemetry.Progress.Finish | src/progress.cpp:25 | The render flag becomes false. Everything else is unchanged. |
| Display.Quot | src/progress.cpp:57-59 | Division truncating toward zero: the remainder has the sign of the dividend and is smaller than the divisor. |
| Display.Rem | src/progress.cpp:58-59 | `a == Quot(a, b) * b + r`, with r taking the dividend's sign, as C++ `%` does. |
| Display.QuotUnique | src/progress.cpp:57-59 | Quotient and remainder are the only pair with those bounds. |
| Display.Split | src/progress.cpp:57-59 | h·3600 + m·60 + s = d. For d ≥ 0, h ≥ 0 and m, s in [0, 60). For d < 0 all three are ≤ 0 and m, s lie in (−60, 0]. |
| Display.SplitUnique | src/progress.cpp:57-59 | Any decomposition with those bounds is the split `formatDuration` computes. |
| Display.FormatDuration | src/progress.cpp:56-70 | The text ends in the unit "s". |
| Display.Field | src/progress.cpp:63-67 | A field ends with its unit letter. |
| Display.ReadLastField | src/progress.cpp:66-67 | The "Ss" text reads back as one field, (s, 's'). |
| Display.ReadMinutesText | src/progress.cpp:64-65 | The "Mm Ss" text reads back as two fields. |
| Display.ReadHoursText | src/progress.cpp:62-63 | The "Hh Mm Ss" text reads back as three fields. |
| Display.ReadHoursDuration | src/progress.cpp:62-63 | The "Hh Mm Ss" text reads back as h·3600 + m·60 + s. |
| Display.ReadMinutesDuration | src/progress.cpp:64-65 | The "Mm Ss" text reads back as m·60 + s. |
| Display.ReadSecondsDuration | src/progress.cpp:66-67 | The "Ss" text reads back as s. |
| Display.ReadDurationOfText | src/progress.cpp:62-68 | The three-way choice of shape (hours > 0, minutes > 0, neither) reads back as h·3600 + m·60 + s. |
| Display.FormatDurationRoundTrip | src/progress.cpp:56-70 | Reading the text of any non-negative duration gives back that duration. |
| Display.NegativeDurationShowsSeconds | src/progress.cpp:56-70 | A negative duration is shown by its (non-positive) seconds part alone and does not read back as itself. |
| Display.Trunc | src/progress.cpp:126 | `static_cast<long>`: truncation toward zero, within 1 of the value. |
| Display.ElapsedSeconds | src/progress.cpp:104-107 | Whole seconds between start and now, truncated toward zero, within 1 s of the difference. |
| Display.RemainingSeconds | src/progress.cpp:124-126 | The estimate equals the truncation of elapsed × (100 − p) / p, and it is non-negative while elapsed is. |
| Display.FileProgressCell | src/progress.cpp:118-133 | "unknown" exactly when the percentage is negative, otherwise the percentage itself. |
| Display.RemainingCell | src/progress.cpp:118-134 | "unknown" exactly when the percentage is negative. "calculating..." exactly when it is known but not strictly between 0.1 and 99.9. Otherwise the formatted estimate. |
| Display.ElapsedReadsBack | src/progress.cpp:107-115 | With a clock that has not gone backwards, the elapsed row reads back as the elapsed seconds. |
| Display.RemainingReadsBack | src/progress.cpp:124-128 | Inside (0.1, 99.9) the remaining row reads back as the truncated estimate. |
| Display.Live | src/progress.cpp:104-135 | One refresh: the pages row reads back as the counter, the elapsed row as the elapsed seconds, and the file and remaining rows follow the choices above. |
| Display.Final | src/progress.cpp:140-147 | The completion rows: "COMPLETED!", a total that reads back as the counter, and a time that reads back as the elapsed seconds. |
| Decimal.NatToString | src/progress.cpp:113 | Decimal digits only, non-empty, no leading zero. |
| Decimal.IntToString | src/progress.cpp:113 | Non-empty. All digits exactly when the number is non-negative. |
| Decimal.IntToStringRoundTrip | src/progress.cpp:113 | The printed counter reads back as the counter. |
| Chunking.PageXmls | src/main.cpp:83-86 | At most one fragment per event; which events contribute, and in what order, is stated by `Pipeline.PageXmlsStep`. |
| Chunking.Batch | src/main.cpp:100-105 | Groups of 400 that concatenate back to the input. No group is empty, and all but the last are full. |
| Chunking.BatchOfGroups | src/main.cpp:100-116 | Full groups followed by at most 400 more items are cut back into exactly those groups, plus the rest when non-empty. |
| Chunking.ChunkTextSnoc | src/main.cpp:86 | Adding a page puts its XML right before the chunk's closing. |
| Chunking.ChunkTextsShape | src/main.cpp:71-116 | Chunk k is `Opening(k)` + its fragments + `"\n</mediawiki>"`. |
| Chunking.UnwrapChunkText | src/main.cpp:100-105 | Stripping a chunk's opening and closing gives back exactly its fragments. |
| Chunking.ChunksConservePages | src/main.cpp:83-116 | One chunk per group. The groups concatenate to every page fragment in reader order, so none is lost or duplicated. Every chunk but the last holds exactly 400 and the last 1–400, so none is empty. Only the first opens without a line break. |
| Chunking.ChunkCount | src/main.cpp:100-116 | The number of chunks is ⌈pages / 400⌉, which is 0 without pages. |
| Chunking.BatchCount | src/main.cpp:100-105 | Batching n items into 400s gives ⌈n / 400⌉ groups. |
| Rows.PageLinkRowsShape | src/main.cpp:45-47 | Link row i of a page is (title, link i): one per link, in link order. |
| Rows.NodeRowsOfTitled | src/main.cpp:39-54 | Exactly one node row per page with a non-empty title, in page order. |
| Rows.LinkRowsCount | src/main.cpp:39-49 | The number of link rows is the number of links of the titled pages. |
| Rows.RowsAppend | src/main.cpp:39-54 | The rows of consecutive page lists are the rows of each, one after the other. |
| Rows.EmptyTitleDropped | src/main.cpp:40-42 | A page with an empty title adds no row, wherever it stands. |
| Rows.TitledPageRows | src/main.cpp:44-53 | A titled page adds its link rows and then exactly one node row. |
| Rows.BatchOrderIrrelevant | src/main.cpp:147-153 | Any reordering of the batches the workers deliver writes the same node and link rows, as multisets. |
| Rows.LinkRowRoundTrip | src/main.cpp:46 | A link row of quote-free titles reads back as (title, target, "LINK"). |
| Rows.NodeRowRoundTrip | src/main.cpp:50-53 | A node row reads back as (title, titleCaps, "REDIRECT" or "PAGE" by the flag). |
| Rows.QuoteInTitleCollides | src/main.cpp:46 | Titles are not escaped, so two different links, one with `","` in its title, write the same text. |
| Rows.ThreePagesExample | src/main.cpp:39-54 | On a concrete batch, two PAGE rows, one REDIRECT row and the first page's two links, in order. |
| Pipeline.ParseEach | src/main.cpp:23-24 | One batch per chunk: batch k is the parser's result for chunk k. |
| Pipeline.PageXmlsStep | src/main.cpp:84-87 | A `page` event adds its outer XML and any other event adds nothing. |
| Pipeline.AddPageToChunk | src/main.cpp:84-87 | A page that leaves the open chunk under 400 joins it, and the chunking state is kept. |
| Pipeline.AddPageClosesChunk | src/main.cpp:100-105 | The 400th page closes the chunk. The text pushed is the next chunk text, the count resets to 0, and the next chunk opens with `"<mediawiki>\n"`. |
| Pipeline.ReadEventsState | src/main.cpp:83-111 | After any events, the queued chunks are the texts of full groups of 400. The open chunk holds the remaining pages (fewer than 400), and `pageCount` is their number. |
| Pipeline.ReaderQueuesChunks | src/main.cpp:83-116 | The loop's chunks plus the flushed partial chunk are exactly `Chunks(events)`. |
| Pipeline.Utf8Size | src/main.cpp:93 | The bytes `pageXml.size()` counts: the UTF-8 length, between the number of characters and four times that. |
| Pipeline.Utf8SizeAscii | src/main.cpp:93 | The byte count equals the character count exactly when every character is ASCII. |
| Pipeline.ShareInRange | src/main.cpp:93-97 | For a positive file size, the reported share lies in [0, 100] exactly when no more than the file has been read. |
| Pipeline.ReportPage | src/main.cpp:95-98 | The counter rises by 1. The share is stored when it is in range and otherwise ignored, including when the file size is 0. |
| Pipeline.ReadNode | src/main.cpp:84-105 | One loop pass changes the queue and the locals as `ReadEvent` does. |
| Pipeline.FlushChunk | src/main.cpp:113-116 | A chunk is pushed after the loop exactly when it holds a page. |
| Pipeline.XmlReader | src/main.cpp:61-121 | The queue gains exactly `Chunks(events)` and its flag is unchanged. The tracker counts every page once, ends at 100%, and keeps its invariant. |
| Pipeline.PageProcessor | src/main.cpp:13-27 | It drains the input. Each popped chunk pushes exactly its parsed batch, in order, and the loop stops at end of stream. Neither flag changes. |
| Pipeline.LinkBlock | src/main.cpp:44-47 | `linkStr` is the text of the page's link rows. |
| Pipeline.PageRowsStep | src/main.cpp:39-54 | One loop pass adds nothing for an untitled page. Otherwise it adds the page's node row and link rows. |
| Pipeline.WriteBatch | src/main.cpp:39-54 | A batch writes exactly the text of its node rows and its link rows. |
| Pipeline.BatchNodeTextsFlatten | src/main.cpp:32-58 | Writing batch after batch gives the node rows of all their pages together. |
| Pipeline.BatchLinkTextsFlatten | src/main.cpp:32-58 | Writing batch after batch gives the link rows of all their pages together. |
| Pipeline.WriteNextBatch | src/main.cpp:35-54 | A popped batch's rows go after those already written. |
| Pipeline.CsvWriter | src/main.cpp:29-59 | It drains the queue and returns the text of the node and link rows of all batches, in pop order. |
| Pipeline.FinishStages | src/main.cpp:157-167 | Finish the input, run the worker, finish the output, run the writer. The rows are those of every chunk's parsed batch. |
| Pipeline.ParseFileParallel | src/main.cpp:123-174 | The files are the header followed by the rows of the parsed chunks of the dump. The tracker has counted every page, reached 100% and been told to finish. |
| Pipeline.Run | src/main.cpp:176-193 | Without a path argument: exit 1, the error message, and no files. Otherwise: exit 0 and the two files `parseFileParallel` writes. |

## Left out

- Threads, mutexes, condition variables and atomics are left out. The model runs the stages one after another with one worker standing for sixteen. The batch reordering a pool can cause is covered by `Rows.BatchOrderIrrelevant`, but other interleavings are not modelled.
- Pipeline.PageProcessor: the wait inside `pop` becomes the precondition `qIn.finished || !keepAlive`. A call that would block forever in the source is not modelled.
- Pipeline.CsvWriter: the same precondition as `PageProcessor`, for the same reason.
- Pipeline.PageProcessor: the source reads `keepAlive` before calling `empty()`, while the model always calls `Empty`. `Empty` changes nothing, so the loop behaves the same.
- Pipeline.XmlReader: the backpressure loop that sleeps while more than five chunks wait (src/main.cpp:108-110) is left out. It only delays the reader, and in the sequential model nothing else would drain the queue.
- Pipeline.XmlReader: the counters `totalPagesProcessed` and `pagesSinceLastUpdate` are never read, and the unused `qOut` parameter has no effect; all three are left out.
- Pipeline.XmlReader: `totalContentSize` adds the UTF-8 byte length of each page's outer XML, as `size()` does. It and the file size are exact numbers, and the share is an exact real. With a zero file size the source divides by zero, and `setFileProgress` ignores the result. The model skips that call.
- The libxml++ `TextReader` and `MySaxParser` are outside this model. The reader is a sequence of node events and the parser an arbitrary function from a chunk to pages. Their exceptions are not modelled.
- File creation, `std::remove`, writes and flushes are left out. The two CSV files are returned as strings.
- The render thread's terminal output (box drawing, cursor moves, `setw` padding, the 500 ms sleep) is left out. `formatRate` and the one-decimal percentage text are floating-point formatting and are also left out. The rows' values and texts are modelled by `Display.Live` and `Display.Final`.
- Floating-point values (`currentRate`, `fileProgressPercentage`) are exact reals. Rounding, infinities and NaN are not modelled.
- Telemetry.Progress.Increment: the counter is an unbounded integer. Overflow of the 32-bit `std::atomic<int>` is not modelled.
- Telemetry.Progress.UpdateProcessingRate: it requires a positive counter above the history's last count. Its only caller, `increment`, always ensures that.
- Telemetry.RecordSampleWindow: the 30-second bound is proved only for a clock that does not go backwards. `system_clock` gives no such guarantee.
- Telemetry.Progress.Increment: the same clock hypothesis as `RecordSampleWindow`.
- Telemetry.NextWindow: the same clock hypothesis.
- Display.FormatDurationRoundTrip: the round trip holds for non-negative durations only. `NegativeDurationShowsSeconds` states what a backwards clock shows.
- The `Progress` destructor is left out. Like `finish`, it only clears the render flag, and the model has no object lifetimes.
- CSV fields are not escaped in the source, and the model keeps that. `Rows.QuoteInTitleCollides` shows the resulting ambiguity, and the read-back lemmas require quote-free titles.
