/** lib/background.py, `BackgroundWorker._process_job` and the attempt in
    `_run`: download, read in chunks, sort every chunk over its lanes, merge
    the chunks and write the result file; and the status the attempt leaves. */
module Pipeline {
  import opened Wrappers
  import opened Seqs
  import opened Text
  import opened Common
  import opened Data
  import opened ReaderFacts
  import opened Validation

  /** Everything a worker depends on that is not modelled: the work
      directory, the configured maximum concurrency, the URL parser, what
      fetching a URL produces, the pivot choices and which lane sorts
      raise. */
  datatype Env = Env(
    workDir: string,
    maxConcurrency: int,
    urlparse: string -> UrlParse,
    fetch: string -> Transfer,
    pick: seq<int> -> nat,
    fails: seq<int> -> bool)

  /** `os.path.join(dir, name)`: an absolute name replaces the directory,
      and one '/' separates them otherwise. */
  function JoinPath(dir: string, name: string): (path: string)
    ensures |name| <= |path| && path[|path| - |name|..] == name
    ensures (|name| == 0 || name[0] != '/') ==> |dir| <= |path| && path[..|dir|] == dir
  {
    if |name| > 0 && name[0] == '/' then name
    else if dir == "" || dir[|dir| - 1] == '/' then dir + name
    else dir + "/" + name
  }

  /** The name of a job's result file. */
  function ResultName(id: string): string {
    id + ".json"
  }

  /** The result file: where it was written and what it holds. */
  datatype Output = Output(path: string, content: string)

  /** `ok` holds of every chunk, first to last. */
  predicate Every(chunks: seq<seq<int>>, ok: seq<int> -> bool)
    decreases |chunks|
  {
    |chunks| == 0 || (ok(chunks[0]) && Every(chunks[1..], ok))
  }

  /** The recursive statement of `Every`, index by index. */
  lemma {:induction false} EveryAt(chunks: seq<seq<int>>, ok: seq<int> -> bool)
    ensures Every(chunks, ok) <==> forall i :: 0 <= i < |chunks| ==> ok(chunks[i])
    decreases |chunks|
  {
    if |chunks| > 0 {
      EveryAt(chunks[1..], ok);
      assert forall i :: 1 <= i < |chunks| ==> chunks[i] == chunks[1..][i - 1];
    }
  }

  /** Every chunk sorts. */
  predicate AllChunksSort(chunks: seq<seq<int>>, concurrency: int, pick: seq<int> -> nat, fails: seq<int> -> bool)
    requires concurrency > 0
  {
    Every(chunks, xs => SortChunk(xs, concurrency, pick, fails).Success?)
  }

  /** `sorted` holds, part by part, `chunks` in ascending order. */
  predicate SortedPartwise(sorted: seq<seq<int>>, chunks: seq<seq<int>>)
    decreases |chunks|
  {
    |sorted| == |chunks| &&
    (|chunks| == 0 ||
     (SortedPermutationOf(sorted[0], chunks[0]) && SortedPartwise(sorted[1..], chunks[1..])))
  }

  /** The recursive statement of `SortedPartwise`, at one index. */
  lemma {:induction false} SortedPartwiseAt(sorted: seq<seq<int>>, chunks: seq<seq<int>>, i: nat)
    requires SortedPartwise(sorted, chunks) && i < |chunks|
    ensures |sorted| == |chunks| && SortedPermutationOf(sorted[i], chunks[i])
    decreases i
  {
    if i > 0 {
      SortedPartwiseAt(sorted[1..], chunks[1..], i - 1);
    }
  }

  /** Sorts the chunks one after another, stopping at the first chunk whose
      sort raises. */
  function SortChunks(chunks: seq<seq<int>>, concurrency: int, pick: seq<int> -> nat, fails: seq<int> -> bool)
    : (r: Result<seq<seq<int>>, Failure>)
    requires concurrency > 0
    ensures r.Success? <==> AllChunksSort(chunks, concurrency, pick, fails)
    ensures r.Failure? ==> r.error == Unexpected
    ensures r.Success? ==> SortedPartwise(r.value, chunks)
    decreases |chunks|
  {
    if |chunks| == 0 then
      Success([])
    else
      match SortChunk(chunks[0], concurrency, pick, fails)
      case Failure(e) => Failure(e)
      case Success(head) =>
        match SortChunks(chunks[1..], concurrency, pick, fails)
        case Failure(e) =>
          assert !AllChunksSort(chunks, concurrency, pick, fails);
          Failure(e)
        case Success(rest) =>
          assert ([head] + rest)[0] == head && ([head] + rest)[1..] == rest;
          Success([head] + rest)
  }

  /** Parts that are sorted permutations of non-empty chunks are fit for the
      merge, and hold between them the chunks' numbers. */
  lemma SortedPartwiseMerge(sorted: seq<seq<int>>, chunks: seq<seq<int>>)
    requires SortedPartwise(sorted, chunks) && AllNonEmpty(chunks)
    ensures AllNonEmpty(sorted) && AllSorted(sorted)
    ensures multiset(Flatten(sorted)) == multiset(Flatten(chunks))
  {
    forall i | 0 <= i < |sorted|
      ensures |sorted[i]| > 0 && Sorted(sorted[i]) && multiset(sorted[i]) == multiset(chunks[i])
    {
      SortedPartwiseAt(sorted, chunks, i);
      assert |multiset(sorted[i])| == |multiset(chunks[i])|;
    }
    FlattenPermuted(sorted, chunks);
  }

  /** The part of `_process_job` after the download: sort every chunk that
      was read, then stop at a malformed chunk or merge the sorted chunks
      and serialise them. On success the written text reads back as the
      reference sort of every number read. */
  function WriteSorted(read: Chunked, concurrency: int, pick: seq<int> -> nat, fails: seq<int> -> bool)
    : (r: Result<string, Failure>)
    requires concurrency > 0
    requires AllNonEmpty(read.chunks)
    ensures r.Failure? ==> r.error == Unexpected || read.failure == Some(r.error)
    ensures !AllChunksSort(read.chunks, concurrency, pick, fails) ==> r == Failure(Unexpected)
    ensures AllChunksSort(read.chunks, concurrency, pick, fails) && read.failure.Some? ==>
      r == Failure(read.failure.value)
    ensures r.Success? ==> read.failure.None? && AllChunksSort(read.chunks, concurrency, pick, fails)
    ensures r.Success? ==> ReadBack(r.value) == Some(InsertionSort(Flatten(read.chunks)))
    ensures (read.failure.None? && AllChunksSort(read.chunks, concurrency, pick, fails) &&
             |Flatten(read.chunks)| > 0) ==> r.Success?
  {
    var sorted :- SortChunks(read.chunks, concurrency, pick, fails);
    if read.failure.Some? then
      Failure(read.failure.value)
    else
      SortedPartwiseMerge(sorted, read.chunks);
      var merged := Merge(sorted);
      MergeSorted(sorted);
      IsInsertionSort(Flatten(read.chunks), merged);
      assert |merged| == |Flatten(read.chunks)| by {
        assert |multiset(merged)| == |multiset(Flatten(read.chunks))|;
      }
      var content :- Serialise(merged);
      SerialiseRoundTrip(merged);
      Success(content)
  }

  /** `_process_job` on a validated job, whose concurrency the validator
      made positive. The file is read by the chunker as written, chunk by
      chunk, and each chunk is sorted as soon as it is read, so a chunk whose
      lanes fail stops the job before a later malformed chunk is reached; a
      malformed chunk stops it after all earlier chunks are sorted. */
  function ProcessJob(job: ValidatedJob, env: Env): (r: Result<Output, Failure>)
    requires job.concurrency > 0
    ensures r.Success? ==> r.value.path == JoinPath(env.workDir, ResultName(job.id))
    ensures r.Success? ==> env.fetch(job.url).Body? && env.fetch(job.url).content != ""
    ensures r.Failure? ==>
      (r.error == Unexpected || r.error == Custom(IncorrectData) ||
       r.error == Custom("remote error") || r.error == Custom("data seems empty"))
  {
    var text :- Download(env.fetch(job.url));
    var read := ReadChunksAsWritten(FileReads(text, BufferSize), BufferSize);
    var content :- WriteSorted(read, job.concurrency, env.pick, env.fails);
    Success(Output(JoinPath(env.workDir, ResultName(job.id)), content))
  }

  /** The numbers of a downloaded text, when every token is an integer. */
  function Numbers(text: string): Option<seq<int>> {
    ParseTokens(Split(text))
  }

  /** On success the result file holds every number of the downloaded file,
      in ascending order, each as often as in the file, provided every
      buffer-sized stretch of the file holds a separator (otherwise the
      chunker as written may cut a token in two). */
  lemma ProcessJobSorts(job: ValidatedJob, env: Env)
    requires job.concurrency > 0
    requires ProcessJob(job, env).Success?
    requires !EndsWithSep(env.fetch(job.url).content)
    requires SepInEveryWindow(env.fetch(job.url).content, BufferSize)
    ensures Numbers(env.fetch(job.url).content).Some?
    ensures ReadBack(ProcessJob(job, env).value.content) ==
      Some(InsertionSort(Numbers(env.fetch(job.url).content).value))
  {
    ReadChunksAsWrittenMatchText(env.fetch(job.url).content, BufferSize);
  }

  /** The download outcomes and the data decide the failures: a remote error
      status, an empty body and a failed transfer each have their own
      outcome, and a file with a token that is not an integer never succeeds
      when every buffer-sized stretch of it holds a separator. */
  lemma ProcessJobFailures(job: ValidatedJob, env: Env)
    requires job.concurrency > 0
    ensures env.fetch(job.url).HttpError? ==> ProcessJob(job, env) == Failure(Custom("remote error"))
    ensures env.fetch(job.url) == Body("") ==> ProcessJob(job, env) == Failure(Custom("data seems empty"))
    ensures env.fetch(job.url).TransportError? ==> ProcessJob(job, env) == Failure(Unexpected)
    ensures (env.fetch(job.url).Body? && env.fetch(job.url).content != "" &&
             !EndsWithSep(env.fetch(job.url).content) &&
             SepInEveryWindow(env.fetch(job.url).content, BufferSize) &&
             Numbers(env.fetch(job.url).content).None?) ==>
      ProcessJob(job, env).Failure?
  {
    if ProcessJob(job, env).Success? && !EndsWithSep(env.fetch(job.url).content) &&
       SepInEveryWindow(env.fetch(job.url).content, BufferSize) {
      ProcessJobSorts(job, env);
    }
  }

  /** With no lane failing, a file with a token that is not an integer ends
      the job with 'incorrect data', when every buffer-sized stretch of it
      holds a separator and it does not end with one. */
  lemma ProcessJobIncorrectData(job: ValidatedJob, env: Env)
    requires job.concurrency > 0
    requires forall s :: !env.fails(s)
    requires env.fetch(job.url).Body? && env.fetch(job.url).content != ""
    requires !EndsWithSep(env.fetch(job.url).content)
    requires SepInEveryWindow(env.fetch(job.url).content, BufferSize)
    requires Numbers(env.fetch(job.url).content).None?
    ensures ProcessJob(job, env) == Failure(Custom(IncorrectData))
  {
    var text := env.fetch(job.url).content;
    ReadChunksAsWrittenMatchText(text, BufferSize);
    var read := ReadChunksAsWritten(FileReads(text, BufferSize), BufferSize);
    NoLaneFails(read.chunks, job.concurrency, env.pick, env.fails);
    assert Download(env.fetch(job.url)) == Success(text);
  }

  /** With no lane failing, every non-empty chunk sorts. */
  lemma NoLaneFails(chunks: seq<seq<int>>, concurrency: int, pick: seq<int> -> nat, fails: seq<int> -> bool)
    requires concurrency > 0 && AllNonEmpty(chunks)
    requires forall s :: !fails(s)
    ensures AllChunksSort(chunks, concurrency, pick, fails)
  {
    forall i | 0 <= i < |chunks|
      ensures SortChunk(chunks[i], concurrency, pick, fails).Success?
    {
      SortChunkFails(chunks[i], concurrency, pick, fails);
    }
    EveryAt(chunks, xs => SortChunk(xs, concurrency, pick, fails).Success?);
  }

  /** With no lane failing, a downloaded file of integers whose every
      buffer-sized stretch holds a separator is always sorted and written. */
  lemma ProcessJobSucceeds(job: ValidatedJob, env: Env)
    requires job.concurrency > 0
    requires forall s :: !env.fails(s)
    requires env.fetch(job.url).Body? && env.fetch(job.url).content != ""
    requires !EndsWithSep(env.fetch(job.url).content)
    requires SepInEveryWindow(env.fetch(job.url).content, BufferSize)
    requires Numbers(env.fetch(job.url).content).Some?
    ensures ProcessJob(job, env).Success?
  {
    var text := env.fetch(job.url).content;
    var read := ReadChunksAsWritten(FileReads(text, BufferSize), BufferSize);
    ReadChunksAsWrittenMatchText(text, BufferSize);
    NoLaneFails(read.chunks, job.concurrency, env.pick, env.fails);
    assert |Flatten(read.chunks)| == |Split(text)| >= 1;
  }

  /** The source rejects a well-formed file: a number that fills the first
      buffer, followed by ", 5", ends the job with 'incorrect data'. */
  lemma ProcessJobRejectsLongNumber(job: ValidatedJob, env: Env, d: string)
    requires job.concurrency > 0
    requires forall s :: !env.fails(s)
    requires |d| == BufferSize && AllDigits(d)
    requires env.fetch(job.url) == Body(d + ", 5")
    ensures Numbers(env.fetch(job.url).content).Some?
    ensures ProcessJob(job, env) == Failure(Custom(IncorrectData))
  {
    var read := ReadChunksAsWritten(FileReads(d + ", 5", BufferSize), BufferSize);
    AsWrittenRejectsLongNumber(d, BufferSize);
    NoLaneFails(read.chunks, job.concurrency, env.pick, env.fails);
  }

  /** The source accepts a malformed file: a token that runs past the first
      buffer as `d-3` is written out as the two numbers `d` and -3. */
  lemma ProcessJobAcceptsSplitToken(job: ValidatedJob, env: Env, d: string)
    requires job.concurrency > 0
    requires forall s :: !env.fails(s)
    requires |d| == BufferSize && AllDigits(d)
    requires env.fetch(job.url) == Body(d + "-3")
    ensures Numbers(env.fetch(job.url).content).None?
    ensures ProcessJob(job, env).Success?
  {
    var text := d + "-3";
    assert Numbers(text).None? by {
      SplitTokenText(d);
    }
    var read := ReadChunksAsWritten(FileReads(text, BufferSize), BufferSize);
    assert read.failure.None? && |read.chunks| == 2 by {
      AsWrittenAcceptsSplitToken(d, BufferSize);
    }
    NoLaneFails(read.chunks, job.concurrency, env.pick, env.fails);
    assert |Flatten(read.chunks)| > 0 by {
      FlattenAround(read.chunks, 0);
    }
    assert WriteSorted(read, job.concurrency, env.pick, env.fails).Success?;
    assert Download(env.fetch(job.url)) == Success(text);
  }

  // ---------------------------------------------------------------------
  // One attempt of the worker loop

  /** Validation and then processing, the work done inside `_run`'s `try`. */
  function Attempt(job: Job, env: Env): (r: Result<Output, Failure>)
    ensures Validate(job, env.maxConcurrency, env.urlparse).Failure? ==>
      r == Failure(Validate(job, env.maxConcurrency, env.urlparse).error)
    ensures r.Success? ==>
      Validate(job, env.maxConcurrency, env.urlparse).Success? &&
      r.value.path == JoinPath(env.workDir, ResultName(job.id))
    ensures r.Failure? ==> Message(r.error) in KnownMessages(env.maxConcurrency)
  {
    match Validate(job, env.maxConcurrency, env.urlparse)
    case Failure(e) =>
      ValidateMessages(job, env.maxConcurrency, env.urlparse);
      Failure(e)
    case Success(validated) => ProcessJob(validated, env)
  }

  /** The status `_run` stores once the attempt is over: the result file's
      path, or the failure's message. */
  function Outcome(job: Job, env: Env): (s: JobStatus)
    ensures s.IsTerminal()
    ensures s.Ready? <==> Attempt(job, env).Success?
    ensures s.Ready? ==> s.path == JoinPath(env.workDir, ResultName(job.id))
    ensures s.HasFilePath() <==> Attempt(job, env).Success?
    ensures Attempt(job, env).Failure? && Attempt(job, env).error.Custom? ==>
      s == Error(Attempt(job, env).error.message)
    ensures Attempt(job, env).Failure? && Attempt(job, env).error.Unexpected? ==>
      s == Error("unexpected error")
  {
    match Attempt(job, env)
    case Success(output) => Ready(output.path)
    case Failure(f) => Error(Message(f))
  }

  /** A valid job whose download fails ends with the downloader's message
      in the job table: 'remote error' for an HTTP error, 'data seems empty'
      for an empty body, and the fixed text for a transport failure. */
  lemma OutcomeOfDownload(job: Job, env: Env)
    requires Validate(job, env.maxConcurrency, env.urlparse).Success?
    ensures env.fetch(job.url).HttpError? ==> Outcome(job, env) == Error("remote error")
    ensures env.fetch(job.url) == Body("") ==> Outcome(job, env) == Error("data seems empty")
    ensures env.fetch(job.url).TransportError? ==> Outcome(job, env) == Error("unexpected error")
    ensures env.fetch(job.url) == Body("foo, bar") ==> Outcome(job, env) == Error("incorrect data")
  {
    var validated := Validate(job, env.maxConcurrency, env.urlparse).value;
    assert validated.url == job.url;
    ProcessJobFailures(validated, env);
    if env.fetch(job.url) == Body("foo, bar") {
      ProcessJobIncorrectBody(validated, env);
    }
  }

  /** The body the integration tests serve for malformed data ends the job
      with 'incorrect data'. */
  lemma ProcessJobIncorrectBody(job: ValidatedJob, env: Env)
    requires job.concurrency > 0
    requires env.fetch(job.url) == Body("foo, bar")
    ensures ProcessJob(job, env) == Failure(Custom(IncorrectData))
  {
    ExampleIncorrect();
    assert AllChunksSort([], job.concurrency, env.pick, env.fails);
    assert Download(env.fetch(job.url)) == Success("foo, bar");
  }

  /** Every message a job can end with: the five validation messages, the
      three data messages, and the fixed text for anything else. */
  function KnownMessages(maxConcurrency: int): set<string> {
    {MustBeInteger, MustBePositive, TooLarge(maxConcurrency), InvalidUrl, MustBeHttp,
     "remote error", "data seems empty", IncorrectData, "unexpected error"}
  }

  lemma OutcomeMessages(job: Job, env: Env)
    requires Outcome(job, env).Error?
    ensures Outcome(job, env).message in KnownMessages(env.maxConcurrency)
  {
    var v := Validate(job, env.maxConcurrency, env.urlparse);
    if v.Failure? {
      ValidateMessages(job, env.maxConcurrency, env.urlparse);
    }
  }
}
