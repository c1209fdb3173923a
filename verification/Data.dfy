/** lib/data.py: the download outcome, the stream chunker, the parallel sort
    stage and the result writer. */
module Data {
  import opened Wrappers
  import opened Seqs
  import opened Text
  import opened Common

  /** BUFFER_SIZE: characters asked for by each read of the downloaded file. */
  const BufferSize: nat := 10240

  /** The message raised when a token is not an integer. */
  const IncorrectData: string := "incorrect data"

  // ---------------------------------------------------------------------
  // Download

  /** What fetching the URL into the work directory produced: the body, an
      HTTP error status, or some other failure (connection refused, bad host,
      ...), which is not a CustomException. */
  datatype Transfer = Body(content: string) | HttpError | TransportError

  /** The download step: an HTTP error is 'remote error', a zero-size file is
      'data seems empty', anything else that went wrong is unexpected. */
  function Download(t: Transfer): (r: Result<string, Failure>)
    ensures r.Success? <==> t.Body? && t.content != ""
    ensures r.Success? ==> r.value == t.content
    ensures t.HttpError? ==> r == Failure(Custom("remote error"))
    ensures t == Body("") ==> r == Failure(Custom("data seems empty"))
    ensures t.TransportError? ==> r == Failure(Unexpected)
  {
    match t
    case HttpError => Failure(Custom("remote error"))
    case TransportError => Failure(Unexpected)
    case Body(content) =>
      if |content| == 0 then Failure(Custom("data seems empty")) else Success(content)
  }

  // ---------------------------------------------------------------------
  // Stream chunker

  /** Everything the blocks return, in order. */
  function Concat(blocks: seq<string>): string {
    if |blocks| == 0 then "" else blocks[0] + Concat(blocks[1..])
  }

  /** The blocks a text file gives: every read but the last returns a full
      buffer, and once a read comes back short the file is exhausted. */
  predicate FileLike(blocks: seq<string>, bufferSize: nat) {
    forall i :: 0 <= i < |blocks| ==>
      |blocks[i]| <= bufferSize &&
      (|blocks[i]| < bufferSize ==> forall j :: i < j < |blocks| ==> blocks[j] == "")
  }

  /** `file.read(bufferSize)` repeated over a file holding `text`. */
  function FileReads(text: string, bufferSize: nat): (blocks: seq<string>)
    requires bufferSize > 0
    ensures FileLike(blocks, bufferSize)
    ensures Concat(blocks) == text
    decreases |text|
  {
    if |text| < bufferSize then
      [text]
    else
      var rest := FileReads(text[bufferSize..], bufferSize);
      assert text == text[..bufferSize] + text[bufferSize..];
      [text[..bufferSize]] + rest
  }

  /** The next read: the blocks are consumed in order and an exhausted file
      returns "". */
  function NextRead(blocks: seq<string>): string {
    if |blocks| == 0 then "" else blocks[0]
  }

  function LaterReads(blocks: seq<string>): seq<string> {
    if |blocks| == 0 then [] else blocks[1..]
  }

  /** The heads `_read_from_file` parses, as the code is written. The carried
      tail is a string: the code's `if tail:` treats None and '' alike, so
      both are "". The loop ends when the tail plus the fresh read is empty;
      a combined buffer shorter than the buffer size is parsed whole; a longer
      one is cut at its last separator, and one with no separator is parsed
      whole with nothing carried. */
  function ReadHeadsAsWritten(blocks: seq<string>, tail: string, bufferSize: nat): (heads: seq<string>)
    ensures heads == [] <==> tail + NextRead(blocks) == ""
    decreases |blocks|, |tail|
  {
    var chunk := tail + NextRead(blocks);
    if chunk == "" then
      []
    else if |chunk| < bufferSize then
      [chunk] + ReadHeadsAsWritten(LaterReads(blocks), "", bufferSize)
    else
      match LastSep(chunk)
      case Some(i) => [chunk[..i]] + ReadHeadsAsWritten(LaterReads(blocks), chunk[i + 2..], bufferSize)
      case None => [chunk] + ReadHeadsAsWritten(LaterReads(blocks), "", bufferSize)
  }

  /** The heads of the corrected chunker: identical, except that a full
      buffer without a separator is carried whole into the next read instead
      of being parsed, unless the fresh read came back short (end of file). */
  function ReadHeads(blocks: seq<string>, tail: string, bufferSize: nat): (heads: seq<string>)
    requires bufferSize > 0
    ensures heads == [] <==> tail + NextRead(blocks) == ""
    decreases |blocks|, |tail|
  {
    var read := NextRead(blocks);
    var chunk := tail + read;
    if chunk == "" then
      []
    else if |chunk| < bufferSize then
      [chunk] + ReadHeads(LaterReads(blocks), "", bufferSize)
    else
      match LastSep(chunk)
      case Some(i) => [chunk[..i]] + ReadHeads(LaterReads(blocks), chunk[i + 2..], bufferSize)
      case None =>
        if |read| < bufferSize then [chunk] + ReadHeads(LaterReads(blocks), "", bufferSize)
        else ReadHeads(LaterReads(blocks), chunk, bufferSize)
  }

  /** `list(map(int, token_list))`: None when some token is not an integer. */
  function ParseTokens(tokens: seq<string>): (r: Option<seq<int>>)
    ensures r.Some? <==> forall i :: 0 <= i < |tokens| ==> ParseInt(tokens[i]).Some?
    ensures r.Some? ==> |r.value| == |tokens|
    ensures r.Some? ==> forall i :: 0 <= i < |tokens| ==> ParseInt(tokens[i]) == Some(r.value[i])
  {
    if |tokens| == 0 then
      Some([])
    else
      match ParseInt(tokens[0])
      case None => None
      case Some(x) =>
        match ParseTokens(tokens[1..])
        case None => None
        case Some(xs) => Some([x] + xs)
  }

  /** What the chunker produced: the chunks yielded, and the failure that
      ended it, if any. Chunks yielded before a failure stay yielded. */
  datatype Chunked = Chunked(chunks: seq<seq<int>>, failure: Option<Failure>)

  /** The integers of one head, or None when a token is not an integer. */
  function ParseHead(head: string): Option<seq<int>> {
    ParseTokens(Split(head))
  }

  /** Parses the heads in order; the first head holding a non-integer token
      raises 'incorrect data'. */
  function ParseHeads(heads: seq<string>): (r: Chunked)
    ensures |r.chunks| <= |heads|
    ensures forall i :: 0 <= i < |r.chunks| ==> ParseHead(heads[i]) == Some(r.chunks[i])
    ensures r.failure.None? <==> |r.chunks| == |heads|
    ensures r.failure.Some? ==> ParseHead(heads[|r.chunks|]).None? && r.failure == Some(Custom(IncorrectData))
    ensures forall i :: 0 <= i < |r.chunks| ==> |r.chunks[i]| > 0
  {
    if |heads| == 0 then
      Chunked([], None)
    else
      match ParseHead(heads[0])
      case None => Chunked([], Some(Custom(IncorrectData)))
      case Some(xs) =>
        var rest := ParseHeads(heads[1..]);
        Chunked([xs] + rest.chunks, rest.failure)
  }

  /** `_read_from_file` as written, which the pipeline runs: an empty file
      yields nothing, every chunk holds at least one number, and the only
      error it raises is 'incorrect data'. */
  function ReadChunksAsWritten(blocks: seq<string>, bufferSize: nat): (r: Chunked)
    ensures NextRead(blocks) == "" ==> r == Chunked([], None)
    ensures forall i :: 0 <= i < |r.chunks| ==> |r.chunks[i]| > 0
    ensures r.failure.Some? ==> r.failure == Some(Custom(IncorrectData))
  {
    ParseHeads(ReadHeadsAsWritten(blocks, "", bufferSize))
  }

  /** The corrected chunker, with the same guarantees. */
  function ReadChunks(blocks: seq<string>, bufferSize: nat): (r: Chunked)
    requires bufferSize > 0
    ensures NextRead(blocks) == "" ==> r == Chunked([], None)
    ensures forall i :: 0 <= i < |r.chunks| ==> |r.chunks[i]| > 0
    ensures r.failure.Some? ==> r.failure == Some(Custom(IncorrectData))
  {
    ParseHeads(ReadHeads(blocks, "", bufferSize))
  }

  // ---------------------------------------------------------------------
  // Parallel sort stage

  /** `int(ceil(n / c))`: the least multiple count of `c` covering `n`. */
  function CeilDiv(n: nat, c: nat): (q: nat)
    requires c > 0
    ensures q * c >= n
    ensures q > 0 ==> (q - 1) * c < n
  {
    (n + c - 1) / c
  }

  function Min(a: nat, b: nat): nat {
    if a <= b then a else b
  }

  /** `zip(lanes, range(0, len(xs), count))`, each offset giving the slice
      `xs[offset:offset + count]`: consecutive slices of `count` numbers (the
      last one possibly shorter), one per lane while numbers remain. */
  function Dispatch(xs: seq<int>, lanes: nat, count: nat): (slices: seq<seq<int>>)
    requires count > 0
    ensures |slices| <= lanes
    ensures forall i :: 0 <= i < |slices| ==> 0 < |slices[i]| <= count
    ensures forall i :: 0 <= i < |slices| - 1 ==> |slices[i]| == count
    ensures Flatten(slices) <= xs
    ensures |slices| < lanes ==> Flatten(slices) == xs
    decreases lanes
  {
    if lanes == 0 || |xs| == 0 then
      []
    else
      var size := Min(count, |xs|);
      var rest := Dispatch(xs[size..], lanes - 1, count);
      assert xs == xs[..size] + xs[size..];
      [xs[..size]] + rest
  }

  /** Lanes for `count` numbers each cover the whole chunk: zip drops no
      slice. */
  lemma {:induction false} DispatchCovers(xs: seq<int>, lanes: nat, count: nat)
    requires count > 0 && lanes * count >= |xs|
    ensures Flatten(Dispatch(xs, lanes, count)) == xs
    decreases lanes
  {
    if lanes > 0 && |xs| > 0 {
      var size := Min(count, |xs|);
      assert (lanes - 1) * count == lanes * count - count;
      DispatchCovers(xs[size..], lanes - 1, count);
      assert xs == xs[..size] + xs[size..];
    }
  }

  /** With `count = ceil(n / c)` the `c` lanes cover the whole chunk, even
      when there are fewer numbers than lanes. */
  lemma DispatchCoversChunk(xs: seq<int>, concurrency: nat)
    requires concurrency > 0 && |xs| > 0
    ensures CeilDiv(|xs|, concurrency) > 0
    ensures Flatten(Dispatch(xs, concurrency, CeilDiv(|xs|, concurrency))) == xs
    ensures 0 < |Dispatch(xs, concurrency, CeilDiv(|xs|, concurrency))| <= concurrency
  {
    var count := CeilDiv(|xs|, concurrency);
    assert concurrency * count >= |xs|;
    DispatchCovers(xs, concurrency, count);
  }

  /** One lane (`DataSorterWorker._run`) handling one slice: the pivot sort,
      or None when the sort raised (`fails` says on which inputs). */
  function LaneResult(slice: seq<int>, pick: seq<int> -> nat, fails: seq<int> -> bool): (r: Option<seq<int>>)
    ensures r.None? <==> fails(slice)
    ensures r.Some? ==> Sorted(r.value) && multiset(r.value) == multiset(slice)
  {
    if fails(slice) then None else Some(QuickSort(slice, pick))
  }

  /** What one lane takes off its input queue: a slice, or None telling it
      to stop. */
  datatype LaneInput = Slice(numbers: seq<int>) | Stop

  /** A lane's loop: one output per slice, in order, up to the first stop. */
  function LaneRun(inputs: seq<LaneInput>, pick: seq<int> -> nat, fails: seq<int> -> bool): (outputs: seq<Option<seq<int>>>)
    ensures |outputs| <= |inputs|
    ensures forall i :: 0 <= i < |outputs| ==> inputs[i].Slice? && outputs[i] == LaneResult(inputs[i].numbers, pick, fails)
    ensures |outputs| < |inputs| ==> inputs[|outputs|].Stop?
  {
    if |inputs| == 0 || inputs[0].Stop? then
      []
    else
      [LaneResult(inputs[0].numbers, pick, fails)] + LaneRun(inputs[1..], pick, fails)
  }

  /** Some lane's sort raises. */
  predicate AnyLaneFails(slices: seq<seq<int>>, fails: seq<int> -> bool) {
    exists i :: 0 <= i < |slices| && fails(slices[i])
  }

  /** The lanes' results for the dispatched slices, in lane order. */
  function SortLanes(slices: seq<seq<int>>, pick: seq<int> -> nat, fails: seq<int> -> bool): (r: Option<seq<seq<int>>>)
    ensures r.None? <==> AnyLaneFails(slices, fails)
    ensures r.Some? ==> |r.value| == |slices|
    ensures r.Some? ==> forall i :: 0 <= i < |slices| ==> r.value[i] == QuickSort(slices[i], pick)
  {
    if |slices| == 0 then
      Some([])
    else
      assert AnyLaneFails(slices, fails) <==> fails(slices[0]) || AnyLaneFails(slices[1..], fails) by {
        if AnyLaneFails(slices[1..], fails) {
          var i :| 0 <= i < |slices[1..]| && fails(slices[1..][i]);
          assert slices[1..][i] == slices[i + 1];
        }
      }
      match LaneResult(slices[0], pick, fails)
      case None => None
      case Some(head) =>
        match SortLanes(slices[1..], pick, fails)
        case None => None
        case Some(rest) => Some([head] + rest)
  }

  /** A lane handed one slice and then the stop item answers once, with
      the result of sorting that slice. */
  lemma LaneRunSingle(slice: seq<int>, pick: seq<int> -> nat, fails: seq<int> -> bool)
    ensures LaneRun([Slice(slice), Stop], pick, fails) == [LaneResult(slice, pick, fails)]
  {
    assert [Slice(slice), Stop][1..] == [Stop];
  }

  /** Each answer `SortLanes` collects is what that slice's lane loop
      answers when it is handed the slice and then the stop item. */
  lemma SortLanesByLaneRun(slices: seq<seq<int>>, pick: seq<int> -> nat, fails: seq<int> -> bool)
    ensures SortLanes(slices, pick, fails).None? <==>
      exists i :: 0 <= i < |slices| && LaneRun([Slice(slices[i]), Stop], pick, fails) == [None]
    ensures SortLanes(slices, pick, fails).Some? ==>
      forall i :: 0 <= i < |slices| ==>
        LaneRun([Slice(slices[i]), Stop], pick, fails) == [Some(SortLanes(slices, pick, fails).value[i])]
  {
    var r := SortLanes(slices, pick, fails);
    forall i | 0 <= i < |slices|
      ensures LaneRun([Slice(slices[i]), Stop], pick, fails) == [LaneResult(slices[i], pick, fails)]
    {
      LaneRunSingle(slices[i], pick, fails);
    }
    if r.None? {
      var i :| 0 <= i < |slices| && fails(slices[i]);
      assert LaneRun([Slice(slices[i]), Stop], pick, fails) == [None];
    }
  }

  /** `DataSorter.sort` for the positive concurrency the validator lets
      through: slice the chunk over the lanes, sort every slice and merge the
      sorted slices. A lane that failed hands None to the merge, which
      raises; an empty chunk raises too (a zero step for `range`). */
  function SortChunk(xs: seq<int>, concurrency: int, pick: seq<int> -> nat, fails: seq<int> -> bool): (r: Result<seq<int>, Failure>)
    requires concurrency > 0
    ensures r.Failure? ==> r.error == Unexpected
    ensures |xs| == 0 ==> r.Failure?
    ensures r.Success? ==> SortedPermutationOf(r.value, xs)
  {
    if |xs| == 0 then
      Failure(Unexpected)
    else
      var count := CeilDiv(|xs|, concurrency);
      DispatchCoversChunk(xs, concurrency);
      var slices := Dispatch(xs, concurrency, count);
      match SortLanes(slices, pick, fails)
      case None => Failure(Unexpected)
      case Some(sorted) =>
        assert AllNonEmpty(sorted) && AllSorted(sorted) by {
          forall i | 0 <= i < |sorted| ensures |sorted[i]| > 0 && Sorted(sorted[i]) {
            assert |multiset(sorted[i])| == |multiset(slices[i])|;
          }
        }
        FlattenPermuted(sorted, slices);
        MergeSorted(sorted);
        Success(Merge(sorted))
  }

  /** A chunk fails to sort exactly when the lane of one of its slices
      fails. */
  lemma SortChunkFails(xs: seq<int>, concurrency: int, pick: seq<int> -> nat, fails: seq<int> -> bool)
    requires concurrency > 0 && |xs| > 0
    ensures SortChunk(xs, concurrency, pick, fails).Failure? <==>
      AnyLaneFails(Dispatch(xs, concurrency, CeilDiv(|xs|, concurrency)), fails)
  {
  }

  /** The slicing and the lanes do not show in the result: a chunk that
      sorts comes out as its reference sort, whatever the pivots. */
  lemma SortChunkIsSort(xs: seq<int>, concurrency: int, pick: seq<int> -> nat, fails: seq<int> -> bool)
    requires concurrency > 0
    requires SortChunk(xs, concurrency, pick, fails).Success?
    ensures SortChunk(xs, concurrency, pick, fails).value == InsertionSort(xs)
  {
    IsInsertionSort(xs, SortChunk(xs, concurrency, pick, fails).value);
  }

  // ---------------------------------------------------------------------
  // Result writer

  const ReadyPrefix: string := "{\"state\": \"ready\", \"data\": ["
  const ReadySuffix: string := "]}"

  /** The decimal texts of the numbers, in order. */
  function Numerals(ns: seq<int>): (r: seq<string>)
    ensures |r| == |ns|
  {
    seq(|ns|, i requires 0 <= i < |ns| => IntToString(ns[i]))
  }

  /** `DataWriter.write`: the prefix, the first number, then ", " and the next
      number for each further one, then the suffix. No number at all makes
      the first `next` raise. */
  function Serialise(ns: seq<int>): (r: Result<string, Failure>)
    ensures r.Failure? <==> ns == []
    ensures r.Failure? ==> r.error == Unexpected
  {
    if |ns| == 0 then Failure(Unexpected)
    else Success(ReadyPrefix + Join(Numerals(ns)) + ReadySuffix)
  }

  /** Reads the numbers back out of a result file: the text between the
      prefix and the suffix, split at the separator, each piece an integer. */
  function ReadBack(text: string): Option<seq<int>> {
    if |text| >= |ReadyPrefix| + |ReadySuffix| && text[..|ReadyPrefix|] == ReadyPrefix
      && text[|text| - |ReadySuffix|..] == ReadySuffix
    then
      ParseTokens(Split(text[|ReadyPrefix|..|text| - |ReadySuffix|]))
    else
      None
  }

  /** Everything written can be read back: the file holds exactly the
      numbers, in order. */
  lemma SerialiseRoundTrip(ns: seq<int>)
    requires ns != []
    ensures ReadBack(Serialise(ns).value) == Some(ns)
  {
    var parts := Numerals(ns);
    forall i | 0 <= i < |parts| ensures !HasSep(parts[i]) && ParseInt(parts[i]) == Some(ns[i]) {
      ParseIntToString(ns[i]);
      forall j | 0 <= j < |parts[i]| ensures !SepAt(parts[i], j) {
        assert parts[i][j] in parts[i];
      }
    }
    SplitJoin(parts);
    var body := Join(parts);
    var text := ReadyPrefix + body + ReadySuffix;
    assert text[..|ReadyPrefix|] == ReadyPrefix;
    assert text[|text| - |ReadySuffix|..] == ReadySuffix;
    assert text[|ReadyPrefix|..|text| - |ReadySuffix|] == body;
    var r := ParseTokens(parts);
    assert r.Some?;
    assert r.value == ns;
  }
}
