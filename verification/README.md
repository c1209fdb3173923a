# Number-sorting job service, modelled in Dafny

The service takes jobs over HTTP. Each job is a URL and a concurrency. A URL
names a text file of comma-separated integers. The service sorts those
integers and stores them as a JSON result file. This project models the
service's core:

- **lib/common.py**:
  - the job and status records;
  - the random-pivot `quick_sort`;
  - the k-way merge `merge_int_iterables`.
- **lib/data.py**:
  - the download outcome;
  - the chunked reader `_read_from_file`, which reads `BUFFER_SIZE`
    characters at a time and carries the text after the last `", "` into
    the next read;
  - the sorter, which cuts a chunk into at most `concurrency` slices of
    `ceil(n / concurrency)` numbers each, sorts each slice on its own lane
    and merges the lanes;
  - the result writer.
- **lib/background.py**:
  - the job validator;
  - the work done for one job, which is download, read, sort, merge and
    write;
  - the job table with its statuses queued, progress, ready and error;
  - the job queue shared by the workers.

The modules follow the program:

| module | what it models |
|---|---|
| `Wrappers` | `Option` and `Result` |
| `Text` | the string library calls used (`split`, `rsplit`, `int`, `str`) |
| `Seqs` | sortedness, concatenation, and a reference insertion sort that the sorts are compared with |
| `Common` | lib/common.py |
| `Data` and `ReaderFacts` | lib/data.py and the facts about its reader |
| `Validation` | `JobValidator` and `ValidatedJob` |
| `Pipeline` | `_process_job` and the attempt inside `_run` |
| `Background` | `BackgroundMaster` and `BackgroundWorker._run`, as transitions on a pool value |
| `Lifecycle` | the status invariant kept by every interleaving of those transitions |

Some things become parameters of the model:

- randomness: the pivot choice `pick`;
- a lane sort that raises: `fails`;
- URL parsing: `urlparse`;
- the HTTP transfer: `fetch`;
- a worker's whole attempt at a job: `outcome`.

## Model

| member | source | states |
|---|---|---|
| Common.StatusRecord | lib/common.py:25-53 | A status is one of the four state names. `has_file_path` holds exactly for the state 'ready'. Only a ready or failed job carries data: the result path or the message. |
| Common.QuickSort | lib/common.py:75-81 | For every pivot choice, the result is sorted and is a permutation of the input. A list of at most one element comes back unchanged. |
| Common.QuickSortPivotFree | lib/common.py:78 | The random pivot cannot be seen in the result. Any two pivot oracles give the same list, and that list is the reference insertion sort of the input. |
| Common.PartitionMultiset | lib/common.py:79-81 | The strictly-smaller, equal and strictly-larger comprehensions together hold every element of the input exactly once. |
| Common.BelowCount | lib/common.py:79 | The `item < pivot` comprehension keeps every occurrence of each smaller value and no occurrence of any other value. |
| Common.SameCount | lib/common.py:81 | The `item == pivot` comprehension keeps exactly the occurrences of the pivot. |
| Common.AboveCount | lib/common.py:80 | The `item > pivot` comprehension keeps every occurrence of each larger value and no occurrence of any other value. |
| Common.MinIndex | lib/common.py:62-67 | The scan picks a part whose head is no larger than any other head. On a tie it picks the first such part, because an index replaces the current best only when its head is strictly smaller. |
| Common.Advance | lib/common.py:68-71 | Taking a head moves that part on by one element, or drops the part once it is used up. Every part before it is untouched. Every part after it keeps its contents, one place earlier when the used-up part is dropped. |
| Common.AdvanceMultiset | lib/common.py:68-72 | The value yielded plus everything left afterwards is exactly what was left before. |
| Common.Merge | lib/common.py:56-72 | The merge yields every element of the parts, each as often as it occurs, and nothing more. |
| Common.MergeSorted | lib/common.py:56-72 | When every part is sorted, the merged stream is sorted. |
| Common.MergeIsSort | lib/common.py:56-72 | Merging sorted parts gives the reference sort of their concatenation. |
| Common.MergeSingle | lib/common.py:56-72 | A single part passes through the merge unchanged. |
| Text.Split | lib/data.py:76 | `split(', ')` returns at least one piece. Joining the pieces with the separator gives the text back, and no piece contains the separator. |
| Text.LastSep | lib/data.py:70 | `rsplit(', ', 1)` cuts at the last separator. There is no cut exactly when the text has no separator. |
| Text.SplitJoin | lib/data.py:76 | Splitting a join of separator-free pieces gives back those pieces. |
| Text.ParseIntToString | lib/data.py:156-158 | `int` applied to what `str` writes gives the number back, and that text contains no comma. |
| Text.NatToString | lib/data.py:156 | `str` of a natural number is a non-empty string of digits whose decimal value is the number. It has no leading zero unless it is the single digit '0'. |
| Text.ParseInt | lib/data.py:76 | `int` accepts exactly an optional '-' followed by one or more decimal digits. The value is the decimal value of the digits, negated after a '-'. Text it accepts is non-empty and holds no comma. |
| Data.Download | lib/data.py:32-45 | An HTTP error gives 'remote error' and an empty body gives 'data seems empty'. Any other transport failure is unexpected. Only a non-empty body goes on, unchanged. |
| Data.FileReads | lib/data.py:62 | Repeated `read(buffer_size)` calls give full buffers until one short read, then only empty reads. Together the reads hold the whole file. |
| Data.ReadHeadsAsWritten | lib/data.py:59-74 | The loop yields nothing exactly when the carried tail and the next read are both empty. This is the reader as written. |
| Data.ReadHeads | lib/data.py:59-74 | The reader with the corrected carry also yields nothing exactly when the carried tail and the next read are both empty. |
| Data.ReadChunksAsWritten | lib/data.py:59-79 | The reader as written yields no chunk and no failure for an empty file. Every chunk it yields is non-empty, and its only failure is 'incorrect data'. |
| Data.ReadChunks | lib/data.py:59-79 | The corrected reader keeps the same guarantees: nothing from an empty file, only non-empty chunks, and 'incorrect data' as its only failure. |
| Data.ParseTokens | lib/data.py:76 | The token list parses exactly when every token is an integer. The result then has one value per token, in order. |
| Data.ParseHeads | lib/data.py:75-79 | Heads are parsed in order and every parsed chunk is non-empty. Parsing stops at the first head holding a non-integer, with 'incorrect data', and the chunks already yielded stay yielded. |
| ReaderFacts.ReadHeadsReassemble | lib/data.py:59-74 | With the corrected carry, the heads the reader cuts rejoin into exactly the file's text. A single trailing separator is the only thing that may be dropped. |
| ReaderFacts.ParseTokensAppend | lib/data.py:76 | The tokens of two lists parse exactly when each list parses, and the values concatenate. |
| ReaderFacts.ParseHeadsJoin | lib/data.py:75-79 | Parsing the heads one by one succeeds exactly when the joined text parses, and the chunks concatenate to the text's numbers. |
| ReaderFacts.ReadChunksMatchText | lib/data.py:59-79 | With the corrected reader, reading any non-empty file succeeds exactly when every token is an integer. The chunks then concatenate to the file's numbers, in order. |
| ReaderFacts.AsWrittenAgrees | lib/data.py:69-74 | The reader as written behaves like the corrected one whenever every full buffer contains a separator. |
| ReaderFacts.WindowsCoverReads | lib/data.py:62-74 | If every stretch of `buffer_size` characters of the text holds a separator, then every full read does. |
| ReaderFacts.ReadChunksAsWrittenMatchText | lib/data.py:59-79 | Take a non-empty text in which every buffer-sized window holds a separator and which does not end in ', '. The reader as written succeeds on it exactly when every token is an integer, and its chunks then concatenate to the file's numbers. |
| ReaderFacts.AsWrittenAcceptsTrailingSep | lib/data.py:63-72 | A parsable head followed by ', ' that exactly fills the buffer is accepted as that head's numbers: the cut at the last separator carries an empty tail, which ends the loop. The same text in a larger buffer is parsed whole and fails with 'incorrect data', and neither text is a list of integers. |
| ReaderFacts.AsWrittenRejectsLongNumber | lib/data.py:72-74 | Take a file whose first buffer is one number with no separator, followed by ", 5". It is valid data, yet the reader as written fails it with 'incorrect data', while the corrected reader reads it. |
| ReaderFacts.AsWrittenAcceptsSplitToken | lib/data.py:72-74 | Take a file whose first buffer is all digits, followed directly by "-3". Its one token is not an integer, yet the reader as written yields the digits and -3 as two chunks, while the corrected reader fails it. |
| ReaderFacts.ExampleOneRead | test/unit.py:8 | With buffer size 10, the reads '10, 20' then '' give one chunk [10, 20]. |
| ReaderFacts.ExampleCarriedTail | test/unit.py:9 | The reads '10000, 200', '00, 30000' and '' give the chunks [10000], [20000] and [30000]. The carried '200' joins the next read. |
| ReaderFacts.ExampleCutAtSep | test/unit.py:10 | The reads '10, 20, 30', ', 40' and '' give the chunks [10, 20] and [30, 40]. |
| ReaderFacts.ExampleIncorrect | test/test_server.py:21-22 | The body 'foo, bar' served for malformed data yields no chunk and fails with 'incorrect data'. |
| Data.CeilDiv | lib/data.py:107 | The slice length is the least count that covers the chunk when multiplied by the concurrency. |
| Data.Dispatch | lib/data.py:109-110 | Slices are consecutive and non-empty. Each holds at most `count` numbers, all but the last hold exactly `count`, and there is at most one per lane. |
| Data.DispatchCoversChunk | lib/data.py:107-110 | With `ceil(n / concurrency)` per slice, the slices cover the whole chunk, in order, on at most `concurrency` lanes. |
| Data.LaneResult | lib/data.py:137-142 | A lane answers None exactly when its sort raised. Otherwise it answers a sorted permutation of its slice. |
| Data.LaneRun | lib/data.py:131-142 | A lane answers each slice it gets, in order, and stops at the first close item. |
| Data.SortLanesByLaneRun | lib/data.py:109-142 | The answer collected for each slice is what that slice's lane loop gives when handed the slice and then the stop item. The sort fails exactly when one of those lane answers is None. |
| Data.SortLanes | lib/data.py:109-112 | The lanes' answers come back in lane order, each the pivot sort of its slice, unless some lane raised. |
| Data.SortChunk | lib/data.py:105-112 | For the positive concurrency the validator lets through, the sorter returns a sorted permutation of the chunk, or an unexpected failure. An empty chunk always fails, because its slice length is zero and `range` rejects a zero step. |
| Data.SortChunkFails | lib/data.py:112 | Sorting a chunk fails exactly when some lane's sort raised. |
| Data.SortChunkIsSort | lib/data.py:105-112 | A successful sort of a chunk is the reference sort of that chunk. |
| Data.Serialise | lib/data.py:150-160 | The writer fails, unexpectedly, exactly when there is no number to write. |
| Data.SerialiseRoundTrip | lib/data.py:153-159 | Reading a written result file back gives exactly the numbers written, in order. |
| Pipeline.JoinPath | lib/data.py:151 | The joined path ends with the file name. A name that does not start with '/' is placed under the work directory: the path starts with that directory. |
| Pipeline.SortChunks | lib/background.py:126 | The chunks all sort exactly when each chunk's sorter succeeds. Each sorted chunk is then a sorted permutation of its chunk. |
| Pipeline.SortedPartwiseMerge | lib/background.py:126 | The sorted chunks handed to the outer merge are non-empty and sorted, and together hold the numbers of all chunks. |
| Pipeline.WriteSorted | lib/background.py:126-127 | The file written holds the reference sort of all numbers read. Its failures are the reader's failure or an unexpected one, in this order: a chunk whose lane sort raises gives an unexpected failure, and otherwise the reader's failure is reported. With no failure and at least one number, writing succeeds. |
| Pipeline.ProcessJob | lib/background.py:122-128 | Processing runs the reader as written. On success the result is `<id>.json` in the work directory, and the download had a non-empty body. Every failure is one of four: the three data messages or an unexpected error. |
| Pipeline.ProcessJobSorts | lib/background.py:122-128 | Take a downloaded file in which every stretch of `BUFFER_SIZE` characters holds a separator. When processing it succeeds, the file's tokens are all integers, and the result file holds every one of them in ascending order, each as often as in the file. |
| Pipeline.ProcessJobFailures | lib/data.py:39-44 | An HTTP error ends the job with 'remote error', an empty body with 'data seems empty', and a transport failure as unexpected. A body with a non-integer token fails when every stretch of `BUFFER_SIZE` characters of it holds a separator and it does not end in ', '. |
| Pipeline.ProcessJobIncorrectData | lib/data.py:75-79 | When no lane raises, a body with a non-integer token that has a separator in every stretch of `BUFFER_SIZE` characters and does not end in ', ' ends the job with 'incorrect data'. |
| Pipeline.ProcessJobIncorrectBody | test/integration.py:51 | The malformed body 'foo, bar' ends the job with 'incorrect data'. |
| Pipeline.ProcessJobSucceeds | lib/background.py:122-128 | Processing succeeds given a positive concurrency, lanes that do not raise, and a non-empty body whose tokens are all integers and in which every stretch of `BUFFER_SIZE` characters holds a separator. This holds whether the concurrency is above or below the number of values. |
| Pipeline.NoLaneFails | lib/background.py:126 | When no lane sort raises, every non-empty chunk sorts. |
| Pipeline.ProcessJobRejectsLongNumber | lib/data.py:72-74 | The whole job, as written, fails with 'incorrect data' on a body made of one number of `BUFFER_SIZE` digits and then ", 5", although every token of it is an integer. |
| Pipeline.ProcessJobAcceptsSplitToken | lib/data.py:72-74 | The whole job, as written, succeeds on a body made of `BUFFER_SIZE` digits and then "-3", although its one token is not an integer. |
| Pipeline.Outcome | lib/background.py:113-120 | A finished attempt always leaves a terminal status. It is ready, and `has_file_path` holds, exactly when validation and processing succeed, and the path is then the result file. A `CustomException` leaves an error status with its own message, and any other failure leaves 'unexpected error'. |
| Pipeline.OutcomeOfDownload | lib/background.py:116-120 | A valid job whose download fails ends in the table as error 'remote error' for an HTTP error, 'data seems empty' for an empty body, and 'unexpected error' for a transport failure. The malformed body 'foo, bar' ends it as error 'incorrect data'. These are the four cases of test/integration.py:48-57. |
| Pipeline.Attempt | lib/background.py:113-120 | A validation failure is the attempt's failure, unchanged. Success needs a valid job and gives the result path. Every failure message is one of the known ones. |
| Pipeline.OutcomeMessages | lib/background.py:118-120 | A failed job's message is one of the nine known messages: five from validation, three about the data, and 'unexpected error'. |
| Validation.CheckConcurrency | lib/background.py:36-44 | The concurrency is accepted exactly when it is an integer between 1 and the maximum. Every rejection carries a message for the user. |
| Validation.CheckUrl | lib/background.py:46-52 | The URL is accepted exactly when it parses with scheme 'http'. An unparsable URL gives 'invalid URL' and any other scheme gives 'URL must be a HTTP resource'. |
| Validation.CreateFrom | lib/background.py:13-15 | The validated job keeps the id and URL and carries the integer value of the concurrency. It fails exactly when that text is not an integer. |
| Validation.Validate | lib/background.py:31-34 | A job is valid exactly when its concurrency is allowed and its URL is http. The validated concurrency then lies between 1 and the maximum. Every failure is a message for the user. |
| Validation.ValidateOrder | lib/background.py:31-52 | The checks run in a fixed order, so each bad input has one message: 'must be integer', then 'must be positive', then 'must be less than', then 'invalid URL', then 'must be a HTTP resource'. |
| Validation.ValidateMessages | lib/background.py:36-52 | Every validation failure carries one of the five validation messages. |
| Validation.MaximumAccepted | lib/background.py:43 | The maximum concurrency itself is accepted, despite the 'less than' wording of its message. |
| Validation.ValidateExamples | test/integration.py:20-30 | The five invalid requests of the integration tests give their expected messages. |
| Background.NewPool | lib/background.py:57-60 | A new master has an empty queue, no workers, and no status for any id. |
| Background.Enqueue | lib/background.py:83 | Putting a job on the queue appends it at the end. The job table and the workers do not change. |
| Background.RecordQueued | lib/background.py:84 | Recording marks that id queued and leaves every other id, the queue and the workers as they were. |
| Background.AddJob | lib/background.py:79-85 | `add_job` marks the new id queued, leaves every other id's status alone, appends the job to the queue and leaves the workers unchanged. |
| Background.Submit | lib/background.py:79-85 | `add_job` in the corrected order, record then enqueue: the new id reads queued, every other id reads as before, the job is last in the queue and the workers do not change. |
| Background.Start | lib/background.py:66-72 | Starting adds the requested number of waiting workers after the existing ones. The queue and the job table do not change. |
| Background.Stop | lib/background.py:74-77 | Stopping appends one close item per worker after the pending jobs and changes nothing else. |
| Background.GetJobStatus | lib/background.py:87-88 | The status lookup answers None exactly for an id never recorded. |
| Background.AddJobQueues | lib/background.py:79-85 | Once `add_job` returns, the new id reads queued and every other id reads as before. The job is last in the queue, and the two halves in either order give this same state. |
| Background.Take | lib/background.py:107-114 | An idle worker takes the queue head. A close item makes it exit. A job makes it busy and marks that job progress. No other worker is affected. |
| Background.Finish | lib/background.py:113-120 | A busy worker records the outcome of its job and becomes idle again. No other id and no other worker changes. |
| Background.PipelineTerminal | lib/background.py:113-120 | The pipeline's attempt is a valid worker outcome: it always ends in a terminal status. |
| Background.Before | lib/background.py:107-111 | The jobs one worker processes are the queue's items up to the first close item. |
| Background.RunWorker | lib/background.py:106-120 | A worker alone on the queue consumes it up to and including the first close item. It exits exactly when it finds one, and no other worker changes. |
| Background.RunWorkerStatuses | lib/background.py:106-120 | Every job the worker processed ends in the table with a terminal status. Ids it did not process keep their entries. |
| Background.RunWorkerOutcomes | lib/background.py:113-120 | Each job the worker processed, with distinct ids, holds exactly its own outcome. |
| Background.DrainFrom | lib/background.py:106-111 | Running each idle worker from a given index on over the queue, in turn, keeps the number of workers and never grows the queue. Workers before that index and workers that are not idle stay as they were. |
| Background.HaltsClose | lib/background.py:74-77 | One close item per idle worker makes every worker exit. The queue empties and the job table does not change. |
| Background.StopShutsDown | lib/background.py:74-77 | After stop, draining the queue makes every worker exit. Every job pending at stop ends terminal. |
| Lifecycle.NewPoolInv | lib/background.py:57-60 | A fresh master satisfies the status invariant. |
| Lifecycle.SubmitKeepsInv | lib/background.py:79-85 | A submission with a fresh id keeps the invariant: queued ids are exactly the queued jobs and progress ids are exactly the busy workers. It changes no existing status. |
| Lifecycle.TakeKeepsInv | lib/background.py:107-114 | Taking the queue head keeps the invariant, and statuses only move forward. |
| Lifecycle.FinishKeepsInv | lib/background.py:113-120 | Recording a terminal outcome keeps the invariant, and statuses only move forward. |
| Lifecycle.StepKeepsInv | lib/background.py:66-120 | Every step of the corrected master keeps the invariant. No status moves backwards and no terminal status changes. |
| Lifecycle.RunKeepsInv | lib/background.py:66-120 | Any interleaving of the corrected steps keeps the invariant, and no status ever moves backwards. |
| Lifecycle.MonotoneTrans | lib/background.py:114-120 | Forward-only status change composes over successive steps. |
| Lifecycle.AddJobSteps | lib/background.py:83-84 | `add_job` as written is two separate steps: enqueue, then record queued. |
| Lifecycle.AddJobRace | lib/background.py:83-84 | With one worker, the step order enqueue, take, finish, record leaves a finished job marked queued again with nothing in the queue. That state breaks the invariant. |

## Left out

- The HTTP server, main.py and the test servers are not part of this model.
- Downloading and file I/O are out. `DataDownloader` is reduced to its outcome (`Data.Transfer`), and files are modelled as their text.
- Threads and `queue.Queue` are modelled as atomic transitions on a pool value (`Lifecycle.Apply`). Blocking and real scheduling are not modelled.
- Logging is left out.
- Validation.CheckUrl: `urlparse` is a parameter. What it accepts and how it lower-cases the scheme are not modelled.
- Text.ParseInt: models `int()` only for an optional '-' followed by ASCII decimal digits. Python also accepts surrounding whitespace, '+', '_' between digits, and non-ASCII decimal digits such as Arabic-Indic ones. A file ending in a newline therefore counts as bad data here but parses in Python. In the other direction, CPython 3.11 and later (and 3.10.7, 3.9.14) reject a decimal string of more than 4300 digits with ValueError, which the model does not limit.
- Data.FileReads: reads are counted in characters of already-decoded text. Text-mode decoding and newline translation are left out.
- Data.CeilDiv: exact integer ceiling in place of the float `ceil(len / concurrency)`. The two differ only beyond the float's precision.
- Common.Merge: requires non-empty parts. In the source, an empty part makes `next` raise StopIteration inside `list(map(pair, parts))`. That ends the map silently, so the empty part and every part after it are dropped from the merge. The reader and the sorter never produce an empty part.
- Common.Merge: the order in which each part is consumed is stated one step at a time (`Common.Advance`), not as a subsequence property of the whole output.
- Data.Serialise: the file text is stated through the `Data.SerialiseRoundTrip` read-back, not character by character. The partly written file left behind by a failing stream is not modelled.
- Pipeline.WriteSorted: generators are modelled as lists. Under the laziness of the source, a reader or lane failure surfaces part-way through writing. Only which failure is reported is modelled.
- ReaderFacts.ReadChunksAsWrittenMatchText: excludes texts that end with ', ', and so does the last clause of `Pipeline.ProcessJobFailures`. The reader as written accepts such a text when its trailing ', ' ends a full buffer, since the cut leaves an empty tail that ends the loop, and rejects it otherwise (`ReaderFacts.AsWrittenAcceptsTrailingSep`).
- ReaderFacts.ReadChunksMatchText: excludes texts that end with the separator. There, `split` would produce a final empty token.
- Pipeline.ProcessJobSorts: excludes texts that end with the separator, for the same reason.
- Pipeline.ProcessJobSorts: needs a separator in every stretch of `BUFFER_SIZE` characters of the body, and so do `Pipeline.ProcessJobSucceeds` and the last clause of `Pipeline.ProcessJobFailures`. Without it the reader as written can reject valid data (`Pipeline.ProcessJobRejectsLongNumber`) or accept invalid data (`Pipeline.ProcessJobAcceptsSplitToken`).
- Data.SortChunk: requires a positive concurrency, which the validator guarantees. For a negative concurrency the source either merges nothing and returns an empty stream or raises on a zero `range` step; this is not modelled.
- Background.RunWorker: one worker drains the queue with no other worker taking items meanwhile. Interleavings are covered by `Lifecycle.RunKeepsInv` instead.
- Background.StopShutsDown: assumes a sequential drain, each worker in turn, and a queue that held no close item before stop.
- Lifecycle.StepKeepsInv: a new job's id is fresh (`Lifecycle.Enabled`). This stands in for the uniqueness of `uuid4`.
- Lifecycle.RunKeepsInv: a worker's attempt is an `outcome` parameter that only has to be terminal. `Background.PipelineTerminal` shows that the pipeline's `Pipeline.Outcome` qualifies.
- Lifecycle.RunKeepsInv: the corrected `add_job` is one atomic step that records and then enqueues.
- Validation.TooLarge: the message says 'less than', but the maximum itself is accepted (`Validation.MaximumAccepted`). The model keeps the code's comparison and its wording.

## Findings

| source | as written | input that shows it | evidently intended | confidence | as-written member | corrected member |
|---|---|---|---|---|---|---|
| lib/data.py:72-74 | A full buffer with no ', ' is parsed whole, and nothing is carried into the next read. | Buffer size n > 3, and a file of n digits followed by ", 5". The first read is the n digits. The next read is ", 5", which splits into '' and '5', and `int('')` raises, giving 'incorrect data'. In the other direction, n digits followed by "-3" is read as two numbers although '<digits>-3' is no integer (`ReaderFacts.AsWrittenAcceptsSplitToken`). | Carry the whole buffer into the next read, and parse it as a head only once the file is exhausted. | medium (not executed; with the default buffer size of 10240 the all-digit instance is masked on CPython 3.11 and later, whose `int()` rejects more than 4300 digits anyway, but a token padded with spaces, such as 10239 spaces then '5', or a smaller buffer size still shows it) | ReaderFacts.AsWrittenRejectsLongNumber | ReaderFacts.ReadChunksMatchText |
| lib/background.py:83-84 | `add_job` puts the job on the queue first, and only then records it as queued. | One worker takes and finishes the job between lines 83 and 84. Line 84 then overwrites the terminal status with queued. The job reads queued forever and is in no queue. | Record queued before putting the job on the queue. | medium (not executed; needs that thread interleaving) | Lifecycle.AddJobRace | Lifecycle.RunKeepsInv |
