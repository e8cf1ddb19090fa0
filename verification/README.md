# nvme-trace: a verified model

This project models the trace pipeline of `tracing/nvme-trace/src` and the duplicate detector in
`reproducer/`, and proves what each part promises and how the parts fit together.

- `Bytes`, `Arith`, `Logs`: little-endian integers, division, and what is written to an output or a warning callback.
- `Records`: the binary record format, its parser, and the proof that parsing and the wire layout are inverse.
- `Reader`: `RecordReader`, framing a byte stream under short reads and interrupts.
- `Ftrace`, `Pages`, `PageDecode`: the ring-buffer page decoder, the documented page layout it inverts, and
  what the record reader makes of its output.
- `Order`, `Splice`, `SpliceRun`: the record order and where it is transitive, the k-way merge, and its loop.
- `Analysis`, `QueueDepth`, `Grid`, `Histogram`, `Throughput`: the three analyzers.
- `Capture`, `CaptureThread`: the capture run as a step machine, and the reader thread's own code as paths of it.
  A read is called lossy when it comes up empty in the middle of a page or, while draining, with pages still
  waiting; the argument `honest` of the step functions excludes such reads. An empty read at the start of a page
  while polling is not lossy. Pages arrive whole, and none appears after a stop that succeeded.
- `Detector`: the Rust and C duplicate detectors and the writer they are judged against.
- `Pipeline`: the chain from pages through capture files and splice to queue-depth samples.

Code that changes state is modelled by methods and classes, each proved against a specification function; the
properties are lemmas about those functions. Two kinds of input the source takes from outside are parameters:

- Reads, polls, writes and the stop flag follow a finite, arbitrary schedule (short reads, interrupts, failures,
  arriving pages), after which calls succeed. Every finite execution is covered.
- Format offsets are given. The encoders check only some field ends and panic when others are out of range, so
  every other field must end within the ends they check (`SubmitFormatOk`, `CompleteFormatOk`).

Shifts, masks and narrowing casts of the source are written as division, remainder and multiplication by the
power of two concerned; wrapping and saturating operations are written out.

Where code and documentation disagree, the model follows the code:

- `docs/nvme-pci-relay-tracing.md` says to sort records by timestamp for a total order. `record_order` uses the
  sequence number within a controller, which is not transitive in general (`OrderCycle`, `TransitiveExactly`).
- `trace_pipe_raw` is described as delivering complete pages. `read_one_page` converts a partly filled buffer
  when a read comes up empty, with the previous page's bytes behind the new ones (`PartialPageMixes`), and a
  drain ends at the first empty read (`SpuriousEmptyReadLoses`); `CompleteExactly` gives the exact condition under
  which a successful capture is complete.
- The C client's header describes a duplicate as a sequence number that does not increase. Both clients also
  require an equal toggle, which leaves some forward jumps reported (`TooFarIsReported`, `SafeExactly`), and the C
  client's sentinel makes it miss duplicates after number 2^64-1 (`SentinelHidesDuplicate`, `ClientsDiffer`).
- The sampling loop stops without moving on when the next time does not fit 64 bits, and a later call then
  samples that time again (`LastTimeRepeats`, `RunExactly`); `GridExactly` gives the exact condition under which
  each time is sampled once.

## Model

| member | source | states |
|---|---|---|
| `Records.ParseSerialize` | tracing/nvme-trace/src/lib.rs:350-386 | every well-formed record, serialised in the wire layout, parses back to itself at any stream offset |
| `Records.SerializeParse` | tracing/nvme-trace/src/lib.rs:528-574 | whatever parses is the image of the record it parses to, once the two submit flags are read as booleans and the reserved completion byte as 0 |
| `Records.AcceptedExactly` | tracing/nvme-trace/src/lib.rs:350-386 | a byte string is accepted if and only if its canonical form is the image of some well-formed record |
| `Records.TailInverse` | tracing/nvme-trace/src/lib.rs:232-249 | PRP entries of 8 bytes and SGL descriptors of 16 bytes are read back from their image |
| `Records.TailImageOf` | tracing/nvme-trace/src/lib.rs:232-249 | every tail of a whole number of entries is the image of the entries read from it |
| `Records.ParseRecordBytes` | tracing/nvme-trace/src/lib.rs:350-386 | an accepted record keeps its bytes and offset and is at least 40 bytes; the errors it can return |
| `Records.ParsedExactly` | tracing/nvme-trace/src/lib.rs:508-574 | the parser on raw bytes, by literal position: which byte strings are accepted, what each field and each tail entry of the record is, and which error any other byte string gives, the first failing check deciding |
| `Reader.ReadExactOrEof` | tracing/nvme-trace/src/lib.rs:594-609 | under any schedule of short reads and interrupts, fills the buffer with the next bytes of the stream and stops early only at its end; any other read failure is returned |
| `Reader.RecordReader.NextRecord` | tracing/nvme-trace/src/lib.rs:306-347 | delivers what the remaining bytes dictate whatever the schedule; the offset moves by the record length, on truncation by the bytes got, on validation errors not at all |
| `Reader.NextExactly` | tracing/nvme-trace/src/lib.rs:306-347 | the next step on raw bytes: which framing error in which order, with what was there; only truncation moves the offset, to the end of the stream |
| `Reader.ReadAll` | tracing/nvme-trace/src/analyze.rs:168-177 | the loading loop returns all records up to a clean end, or the first error |
| `Reader.DecodeFraming` | tracing/nvme-trace/src/lib.rs:306-347 | the bytes of the records read tile the consumed prefix; reading ends without error exactly at the end of the stream on a record boundary; each record takes at least 40 bytes |
| `Reader.DecodeOffsets` | tracing/nvme-trace/src/lib.rs:306-347 | each record carries the number of bytes read before it |
| `Reader.DecodeConcat` | tracing/nvme-trace/src/lib.rs:306-347 | reading a clean stream followed by more bytes gives its records and then those of the rest |
| `Reader.DecodeCut` | tracing/nvme-trace/src/lib.rs:313-342 | a clean stream cut at any byte yields the records that fit, then the end on a boundary, otherwise the truncation error with the bytes left over |
| `Reader.DecodeMoved` | tracing/nvme-trace/src/lib.rs:306-347 | where a stream starts changes only the offsets of its records |
| `Ftrace.EncodeSubmit` | tracing/nvme-trace/src/ftrace.rs:511-579 | the pushes produce the fixed image of the fields at the configured offsets, the blob that the data-loc word names, and a length taken modulo 65536 |
| `Ftrace.EncodeComplete` | tracing/nvme-trace/src/ftrace.rs:582-619 | the same for completions |
| `Ftrace.EncodedSubmitParses` | tracing/nvme-trace/src/ftrace.rs:539-578 | the parser accepts the output if and only if the blob is a whole number of entries and the length did not wrap; then it returns exactly the event's fields, otherwise the tail error or the wrapped-length error |
| `Ftrace.EncodedCompleteParses` | tracing/nvme-trace/src/ftrace.rs:582-619 | the parser always accepts a converted completion and returns its fields |
| `Ftrace.SubmitMeans` | tracing/nvme-trace/src/ftrace.rs:511-579 | from event to record: the event is taken if and only if the data-loc word and the command bytes lie inside it; the result is read back if and only if the blob that the low and high half of that word name is whole entries and the total fits 16 bits; then every field is the one at its configured offset and the tail is the blob's entries |
| `Ftrace.CompleteMeans` | tracing/nvme-trace/src/ftrace.rs:582-619 | the same for completions, which are always read back |
| `Ftrace.SubmitBytes` | tracing/nvme-trace/src/ftrace.rs:551-578 | every byte of the encoding, at its literal position, also when it cannot be read back |
| `Ftrace.CompleteBytes` | tracing/nvme-trace/src/ftrace.rs:596-618 | every byte of a completion's encoding |
| `Ftrace.DispatchEvent` | tracing/nvme-trace/src/ftrace.rs:477-503 | appends the encoding of a matching event and counts it, otherwise changes nothing |
| `Ftrace.ParsePageEvents` | tracing/nvme-trace/src/ftrace.rs:382-474 | the cursor loop appends exactly the encodings of the page's decoded events and returns how many |
| `Pages.ScanPrint` | tracing/nvme-trace/src/ftrace.rs:365-381 | decoding a printed list of ring-buffer events gives its data events, stamped with the running timestamp, up to padding |
| `Pages.PageRoundTrip` | tracing/nvme-trace/src/ftrace.rs:382-398 | every well-formed event list that fits a page comes back from the page with its timestamps |
| `Pages.LexUnique` | tracing/nvme-trace/src/ftrace.rs:403-471 | at most one event prints to a prefix of given bytes, and it is the one the decoder finds |
| `Pages.ScanLex` | tracing/nvme-trace/src/ftrace.rs:403-471 | every byte string decodes like a printed event list that it starts with and that is as long as possible |
| `Pages.StampForward` | tracing/nvme-trace/src/ftrace.rs:403-471 | if no absolute timestamp goes back and the clock does not wrap, the decoded events of a page are in time order, between its start time and its final clock |
| `Pages.PagesInTimeOrder` | tracing/nvme-trace/src/ftrace.rs:382-471 | and across all pages of a CPU, whatever their bytes, if each page also starts no earlier than the clock the page before it left |
| `PageDecode.NextOfEmitted` | tracing/nvme-trace/src/ftrace.rs:477-503 | an emitted record at the front of any bytes is read back if its blob is whole entries and rejected otherwise |
| `PageDecode.RecordOfMeans` | tracing/nvme-trace/src/ftrace.rs:477-503 | which events give a record, by their first two bytes and their length, which are misaligned, and every field of the record of the others |
| `PageDecode.DecodeEmitted` | tracing/nvme-trace/src/ftrace.rs:382-474 | reading emitted records gives the records of the events up to the first misaligned blob, seq 0 and their timestamps; it ends cleanly if and only if none is misaligned |
| `PageDecode.CaptureFileDecodes` | tracing/nvme-trace/src/capture.rs:147-176 | a capture file decodes to exactly the matching events of all its pages if and only if every descriptor blob is whole entries |
| `Order.RecordOrderIsKeyOrder` | tracing/nvme-trace/src/lib.rs:388-408 | the order compares packed keys: seq, qid, cid within a numbered controller, else timestamp, ctrl, qid, cid |
| `Order.RecordOrderMeans` | tracing/nvme-trace/src/lib.rs:388-408 | which of two headers comes first, field by field |
| `Order.RecordOrderReverses` | tracing/nvme-trace/src/lib.rs:388-408 | swapping the arguments reverses the answer, so any two records compare |
| `Order.TransitiveExactly` | tracing/nvme-trace/src/lib.rs:388-408 | the order is transitive on a set of headers if and only if no header outside a numbered stream lies in time between two of the stream whose number order and time order differ |
| `Order.OrderCycle` | tracing/nvme-trace/src/lib.rs:388-408 | three headers that form a cycle |
| `Order.NoSeqsTransitive` | tracing/nvme-trace/src/lib.rs:394-395 | transitive when no record is numbered |
| `Order.OneControllerTransitive` | tracing/nvme-trace/src/lib.rs:389-392 | transitive for one controller with every record numbered |
| `Order.SeqsFollowTimeLexicographic` | tracing/nvme-trace/src/lib.rs:388-408 | where numbers follow time, the order is lexicographic in timestamp, ctrl, seq, qid, cid |
| `Order.SeqsFollowTimeTransitive` | tracing/nvme-trace/src/lib.rs:388-408 | hence transitive there |
| `Order.HeapCmpReverses` | tracing/nvme-trace/src/lib.rs:495-501 | the heap's order is the reverse of header order, then name, then offset |
| `Order.NameOrderMeans` | tracing/nvme-trace/src/lib.rs:498 | names ascend byte by byte: a proper prefix first, else the first different byte decides |
| `Order.ItemOrderMeans` | tracing/nvme-trace/src/lib.rs:495-501 | an item leaves the heap before another exactly if its header comes first, or neither does and its name is smaller, or the name is the same and its offset smaller |
| `Order.ItemLeTransitive` | tracing/nvme-trace/src/lib.rs:495-501 | the item order is transitive wherever the header order is |
| `SpliceRun.BinaryHeap.Pop` | tracing/nvme-trace/src/lib.rs:452 | removes one element, and a least one in item order if the header order is transitive on everything the heap held |
| `SpliceRun.OpenInputs` | tracing/nvme-trace/src/lib.rs:438-447 | the first record of every reader goes into the heap |
| `SpliceRun.WriteItem` | tracing/nvme-trace/src/lib.rs:453-464 | the backwards check against the latest timestamp of the controller, then the record's bytes |
| `SpliceRun.SpliceStreams` | tracing/nvme-trace/src/lib.rs:432-476 | the merge performs a merge run over the inputs' records, greedy where the order is transitive; output, count and warnings are the run's; without source failures it succeeds if and only if every input decodes cleanly |
| `Splice.SpliceConserves` | tracing/nvme-trace/src/lib.rs:449-475 | with no assumption on order the output is an interleaving: projected to any input it is that input's bytes in order, and its length is the sum of theirs |
| `Splice.MergeSorted` | tracing/nvme-trace/src/lib.rs:452-473 | a greedy merge of sorted inputs is sorted, for every transitive relation the record order refines |
| `Splice.SpliceTimeSorted` | tracing/nvme-trace/src/lib.rs:388-476 | without sequence numbers, the output is in time order if and only if every input is, and then there is no warning |
| `Splice.SpliceRecordSorted` | tracing/nvme-trace/src/lib.rs:388-476 | on every transitive domain, the output is sorted if and only if every input is |
| `Splice.WarnsExactly` | tracing/nvme-trace/src/lib.rs:454-461 | a warning is raised for a record exactly when it is earlier than the record of its controller output last before it; it names the controller, both timestamps, the source and the offset |
| `Splice.GreedyUnique` | tracing/nvme-trace/src/lib.rs:495-501 | with distinct source names two greedy merges of the same inputs pick the same records |
| `Splice.GreedyPicksFirst` | tracing/nvme-trace/src/lib.rs:452-473 | step k of a greedy merge takes the next record of its input, and no waiting record of any input is to come before it by header, name and offset |
| `Splice.SpliceDeterministic` | tracing/nvme-trace/src/lib.rs:438-473 | where the order is transitive on the headers, with distinct names, permuting the input list does not change the output bytes |
| `Analysis.InFlightExactly` | tracing/nvme-trace/src/analyze.rs:19-25 | the command (ctrl, qid, cid) is in flight exactly when the last record with that ctrl, qid and cid is a submit |
| `Analysis.KnownExactly` | tracing/nvme-trace/src/analyze.rs:357-360 | the queue (ctrl, qid) is known exactly when some submit has that ctrl and qid |
| `Analysis.DepthsExactly` | tracing/nvme-trace/src/analyze.rs:351-382 | the depths, in all and on a queue, count the submits after which no record has the same ctrl, qid and cid |
| `Analysis.WarningsExactly` | tracing/nvme-trace/src/analyze.rs:361-374 | which warning each record gives: a submit of a command still open, or a completion of one that is not, named by the record's ctrl, qid and cid |
| `Analysis.SubmitsBalance` | tracing/nvme-trace/src/analyze.rs:351-382 | submits = duplicates + matched completions + depth |
| `Analysis.DepthsAddUp` | tracing/nvme-trace/src/analyze.rs:351-382 | the depths of the known queues add up to the global depth |
| `QueueDepth.QueueDepthState.ApplyRecord` | tracing/nvme-trace/src/analyze.rs:352-381 | the four fields stay equal to the in-flight set, the queues submitted to and the depths of the records applied, and the warning is the one the list calls for |
| `QueueDepth.DepthsMatchNext` | tracing/nvme-trace/src/analyze.rs:365-379 | what each record does to the depth map; a depth that is lowered is at least 1, so the subtractions never saturate |
| `QueueDepth.WriteDepthSample` | tracing/nvme-trace/src/analyze.rs:327-341 | one global row and one row for each known queue in ascending order |
| `QueueDepth.EmitDueSamples` | tracing/nvme-trace/src/analyze.rs:306-325 | one call of the emitter, with its early stop when the next time does not fit 64 bits |
| `QueueDepth.AnalyzeQueueDepth` | tracing/nvme-trace/src/analyze.rs:257-304 | writes the rows of the sample list and the warnings of the record list |
| `Grid.GridExactly` | tracing/nvme-trace/src/analyze.rs:274-325 | for records in any order the sample times are 0, s, 2s, … up to the largest offset, each once, if and only if no offset exceeds the last grid time with a 64-bit successor and the records at that offset stand together |
| `Grid.RunExactly` | tracing/nvme-trace/src/analyze.rs:306-325 | what the emitter calls sample, always: one sample for each grid time, and then the last fitting time again, once for every call after the first that reaches beyond it, in that call's state |
| `Grid.SamplesExactly` | tracing/nvme-trace/src/analyze.rs:257-325 | so for every record list, in any order and with any offsets |
| `Grid.LastTimeRepeats` | tracing/nvme-trace/src/analyze.rs:317-323 | an input that misses the grid: timestamps 0 and 2^63+1 at scale 2^63 sample time 2^63 twice |
| `Grid.GridWhenRoom` | tracing/nvme-trace/src/analyze.rs:319-321 | largest offset + scale below 2^64 is enough |
| `Grid.SamplesAreGrid` | tracing/nvme-trace/src/analyze.rs:274-301 | each grid time is sampled in the state of the first emitter call that reaches it |
| `Grid.SampledBefore` | tracing/nvme-trace/src/analyze.rs:274-301 | for records in any order a grid time is sampled just before the first record that moves the offset and at which it is due: it is at most the offset before or below the offset after; else at the end |
| `Grid.SortedGridExactly` | tracing/nvme-trace/src/analyze.rs:274-325 | for records in time order the exact condition is only that the largest offset does not exceed that last time |
| `Grid.SortedSamples` | tracing/nvme-trace/src/analyze.rs:274-301 | for records in time order the sample at t is taken after exactly the records with offset at most t |
| `Grid.QueueDepthMeaning` | tracing/nvme-trace/src/analyze.rs:257-341 | its rows are, in ascending order, exactly the global depth and the depth of every queue submitted to, after exactly those records |
| `Grid.SampleRowsMean` | tracing/nvme-trace/src/analyze.rs:327-341 | the rows of one sample, from the records: the global row first, then the queues some submit went to by ctrl and qid, each with the number of its open submits, and no other row |
| `Grid.RowsIn` | tracing/nvme-trace/src/analyze.rs:306-325 | the output holds the rows of the samples and nothing else, for records in any order |
| `Grid.OutputExactly` | tracing/nvme-trace/src/analyze.rs:257-341 | the whole output for records in time order: strictly ascending by time, scope and queue, a row is written exactly if it is due, that is, at a multiple of the scale up to the last record, with the depth after exactly the records up to its time |
| `Histogram.AnalyzeQueueDepthPercent` | tracing/nvme-trace/src/analyze.rs:384-447 | the maps are exactly the non-zero counts of depths found by submits, globally and by queue, and the sample totals; the rows written are the report of those maps; the loop's own in-flight set, depths and warnings are those of the depth state |
| `Histogram.ScopeMeaning` | tracing/nvme-trace/src/analyze.rs:448-473 | the report has for all queues together, and for each queue, one row for each depth 0, 1, … up to the largest found, in that order, with its count and its exact percentage; the percentages add up to 100 |
| `Histogram.ReportExactly` | tracing/nvme-trace/src/analyze.rs:384-473 | the whole report: all queues together first, then the queues by ctrl and qid, depths ascending; a row is written exactly if some submit of its scope found its depth, with how many did and their percentage |
| `Histogram.QueuesCounted` | tracing/nvme-trace/src/analyze.rs:441-444 | the queues with rows are exactly those submitted to |
| `Histogram.CountsFound` | tracing/nvme-trace/src/analyze.rs:408-415 | a count is the number of submits of the scope that found that many open submits before them; the totals are the numbers of submits |
| `Histogram.GlobalNoGaps` | tracing/nvme-trace/src/analyze.rs:401-437 | if some submit found depth d, then every smaller depth was found too |
| `Histogram.QueueNoGaps` | tracing/nvme-trace/src/analyze.rs:401-437 | the same on every queue |
| `Histogram.DistributionsNoGaps` | tracing/nvme-trace/src/analyze.rs:401-445 | so the depths in each distribution are 0, 1, … without gaps |
| `Histogram.CountsAddUp` | tracing/nvme-trace/src/analyze.rs:408-415 | every submit is counted once globally and once on its queue |
| `Throughput.AnalyzeThroughput` | tracing/nvme-trace/src/analyze.rs:183-243 | the rows are the buckets of the record list in ascending order with their durations; the loop's map of commands in flight has the key set of the other analyzers, and the warnings are theirs |
| `Throughput.FlightMatchNext` | tracing/nvme-trace/src/analyze.rs:203-219 | overwriting a duplicate keeps the same in-flight keys as the set-based analyzers, with the latest submit |
| `Throughput.LatestMeans` | tracing/nvme-trace/src/analyze.rs:55-63 | the command charged is the last record with its ctrl, qid and cid: its data length, a read if its command byte is 2 and a write if it is 1 |
| `Throughput.BucketContents` | tracing/nvme-trace/src/analyze.rs:220-221 | a bucket exists exactly at the multiples of the scale where a matched completion fell, and holds exactly their bytes by direction |
| `Throughput.ThroughputConserves` | tracing/nvme-trace/src/analyze.rs:65-83 | the read and write bytes over all buckets are the data lengths of all completed commands with command byte 2 and 1 |
| `Throughput.BytesExactly` | tracing/nvme-trace/src/analyze.rs:203-222 | the bytes counted in an interval are the data lengths of the submits completed in it, by command byte |
| `Throughput.RowsMean` | tracing/nvme-trace/src/analyze.rs:183-243 | what the rows say, from the records: one for each multiple of the scale where a command completed, ascending, with its read and write bytes and the time it covers, offsets counted from the first record |
| `Throughput.BucketDurations` | tracing/nvme-trace/src/analyze.rs:245-247 | every bucket with a later one lasts the scale; one the last record falls into ends there, but lasts at least 1 |
| `Detector.RustClient.Scan` | reproducer/relay-repro-client/src/main.rs:192-236 | accepts the records of a chunk with byte-wise resynchronisation; counters stay those of all records accepted |
| `Detector.CClient.Scan` | reproducer/relay_repro_client.c:133-165 | the same for the C client with its sentinel |
| `Detector.NoDupsExactly` | reproducer/relay-repro-client/src/main.rs:218-232 | nothing is reported if and only if sequence numbers strictly increase within every run of equal toggle |
| `Detector.DupsExactly` | reproducer/relay-repro-client/src/main.rs:218-232 | each client counts the records that repeat the toggle of the record before and do not exceed its number, the C client not after number 2^64-1 |
| `Detector.ClientsDiffer` | reproducer/relay_repro_client.c:151-160 | the Rust count exceeds the C count by exactly the records that directly follow one numbered 2^64-1 with the same toggle |
| `Detector.ChunkingIrrelevant` | reproducer/relay-repro-client/src/main.rs:202-236 | with whole records in every read, how the stream is cut into reads does not matter |
| `Detector.Resynchronises` | reproducer/relay-repro-client/src/main.rs:203-216 | bytes among which the magic does not occur are skipped one by one and the scan continues behind them |
| `Detector.ScanExactly` | reproducer/relay-repro-client/src/main.rs:202-236 | the scan position by position: accepted records do not overlap and are read at literal byte positions; at every position between them no magic stands, and those are counted |
| `Detector.ImageBytes` | reproducer/relay_repro.c:42-47 | what the writer puts at each position of a record |
| `Detector.AcceptedConcat` | reproducer/relay-repro-client/src/main.rs:202-236 | a whole-record chunk before any bytes |
| `Detector.Writer` | reproducer/relay_repro.c:98-119 | turn i writes seq i mod 2^64 and toggle (i div 2^64) mod 2 |
| `Detector.StreamAccepted` | reproducer/relay_repro.c:98-119 | the clients read back the writer's records |
| `Detector.ReportedExactly` | reproducer/relay-repro-client/src/main.rs:218-219 | when record j after record i is reported, by their distance a * 2^64 + b: where adding b does not wrap the counter, exactly for b = 0 and even a; where it does, exactly for odd a |
| `Detector.SafeExactly` | reproducer/relay-repro-client/src/main.rs:218-219 | the distances that are never reported, wherever the jump starts: an even number of whole wraps and a part of one, or exactly an odd number of whole wraps |
| `Detector.ForwardNotReported` | reproducer/relay-repro-client/src/main.rs:218-219 | moving forward by at most 2^64 records is never reported |
| `Detector.TooFarIsReported` | reproducer/relay-repro-client/src/main.rs:218-219 | the bound is tight: the jump of 2^64+1 from record 2^64-1 is reported |
| `Detector.StaleReported` | reproducer/relay-repro-client/src/main.rs:218-219 | going back within one wrap of the counter is always reported |
| `Detector.NoFalseAlarms` | reproducer/relay-repro-client/src/main.rs:202-236 | neither client reports anything on a forward selection of the writer's stream with gaps of at most 2^64 |
| `Detector.SentinelHidesDuplicate` | reproducer/relay_repro_client.c:151-160 | record 2^64-1 read twice: the Rust client counts one duplicate, the C client none |
| `Capture.ReaderKeepsFile` | tracing/nvme-trace/src/capture.rs:147-187 | every reader step keeps its file the conversion of the page buffers processed, and its counters in agreement |
| `Capture.FilesAlwaysOk` | tracing/nvme-trace/src/capture.rs:127-249 | so in every interleaving, with any environment, at every step |
| `Capture.ReaderKeeps` | tracing/nvme-trace/src/capture.rs:191-249 | a reader step without a lossy read loses or reorders no byte of a page |
| `Capture.CaptureComplete` | tracing/nvme-trace/src/capture.rs:71-122 | success without a lossy read means that every page of every CPU was converted exactly once, in order, and that files and counters are those of all pages |
| `Capture.CompleteExactly` | tracing/nvme-trace/src/capture.rs:71-249 | a successful run converted every page, in order, and emptied every pipe if and only if it had no lossy read |
| `Capture.SuccessExactly` | tracing/nvme-trace/src/capture.rs:71-122 | a run that has ended reports success if and only if no call failed in any thread and the overrun sum was 0 |
| `Capture.SpuriousEmptyReadLoses` | tracing/nvme-trace/src/capture.rs:236-238 | a run with a lossy read that drops a waiting page and succeeds |
| `Capture.PartialPageMixes` | tracing/nvme-trace/src/capture.rs:199-217 | for any two pages, an empty read anywhere inside the second: the run succeeds with three buffers converted, the second of them new bytes followed by the rest of the first page |
| `CaptureThread.Os.Read` | tracing/nvme-trace/src/capture.rs:199-217 | one read into the page buffer, as a step of the machine |
| `CaptureThread.ReadOnePage` | tracing/nvme-trace/src/capture.rs:191-223 | fills the page buffer across reads and converts it; on a short page the rest of the buffer keeps its old bytes |
| `CaptureThread.DrainPipe` | tracing/nvme-trace/src/capture.rs:226-249 | reads and writes out pages until a read finds nothing |
| `CaptureThread.ReadCpuPipe` | tracing/nvme-trace/src/capture.rs:127-187 | every execution of the thread is a path of the machine; on success the file is the conversion of the buffers processed and the counters are its size and its number of events |
| `CaptureThread.PathFileOk` | tracing/nvme-trace/src/capture.rs:127-187 | every path keeps the file and the counters right |
| `CaptureThread.RunIsPaths` | tracing/nvme-trace/src/capture.rs:60-99 | a list of steps is a run if and only if the events of each CPU are a path of its thread, with the stop flag as it is then, and the main thread can take its steps; the state reached is the threads' |
| `CaptureThread.ThreadCompleteExactly` | tracing/nvme-trace/src/capture.rs:127-249 | one thread on its own: it returned normally having converted exactly its CPU's pages, in order, if and only if none of its reads was lossy, when no page appears after it saw the stop flag |
| `CaptureThread.EachCpuExactly` | tracing/nvme-trace/src/capture.rs:60-122 | in a successful capture the file of each CPU is complete if and only if none of its own thread's reads was lossy, whatever the other threads did |
| `Pipeline.CaptureFeedsSplice` | tracing/nvme-trace/src/capture.rs:71-122 | the files a successful capture without a lossy read leaves are the conversions of everything produced, the inputs of the chain |
| `Pipeline.ForwardCpus` | tracing/nvme-trace/src/ftrace.rs:382-471 | CPUs whose ring-buffer clocks run forward have their matching events in time order |
| `Pipeline.DecodeTrace` | tracing/nvme-trace/src/lib.rs:463 | the spliced bytes decode to the records of the merge run |
| `Pipeline.FilesAsInputs` | tracing/nvme-trace/src/lib.rs:394-395 | capture files of whole-entry blobs are clean inputs without sequence numbers, sorted if and only if the CPUs' matching events are in time order |
| `Pipeline.EndToEnd` | tracing/nvme-trace/src/lib.rs:432-476 | from pages to the spliced file: it decodes cleanly to exactly the matching events of every CPU in order; in time order, without warnings, if and only if those of each CPU are |
| `Pipeline.EndToEndSamples` | tracing/nvme-trace/src/analyze.rs:257-341 | and over it the analysis writes, in ascending order, exactly the rows that are due: at each grid time the global depth and that of every queue submitted to, after exactly the records of the whole capture up to that time |
| `Pipeline.CaptureToTrace` | tracing/nvme-trace/src/capture.rs:71-122 | the whole chain from a capture run: its files splice into a trace that holds of every CPU exactly the matching events it produced |

## Left out

- Ftrace control files, CPU discovery, filters, cleanup, opening files, CPU pinning, signals and the logger
  thread: only their order and success or failure appear, as steps of the capture machine.
- Parsing of ftrace format files and of the scale argument: offsets and a positive scale are inputs.
- The kernel ring buffer and the relay race: their code is not part of this model; pages and bytes are inputs.
- Formatted text and floating-point rounding: rows, counts, byte sums and durations are modelled, percentages as
  exact reals, throughput rates not.
- The inside of `BinaryHeap`: popping removes some element, and a least one only where the order is transitive
  on everything the heap held.
- The `Parse` error of the record reader: the decoder is only handed slices of the exact size, which cannot fail.
- Write errors of the splice output and 64-bit overflow of stream offsets, byte counts and event counters.
- A stream that reports its end and later has more data: the record reader's source is a fixed byte string.
- Thread panics: a panicking reader counts as a failed one.
- Path expansion, the command line, `print.rs`, and the Python, Nix and image files: thin wrappers.
