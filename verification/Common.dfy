/** lib/common.py: the job and status records, the failure classification,
    the pivot sort run by every sort lane and the k-way merge. */
module Common {
  import opened Wrappers
  import opened Seqs

  /** How a job can fail: a CustomException carries a message meant for the
      submitter; every other exception is reported without detail. */
  datatype Failure = Custom(message: string) | Unexpected

  /** The text stored in the job's `error` status. */
  function Message(f: Failure): string {
    match f
    case Custom(m) => m
    case Unexpected => "unexpected error"
  }

  /** A submitted job: raw, unvalidated parameters. */
  datatype Job = Job(id: string, concurrency: string, url: string)

  /** The four states of a job, with the path of the result file when ready
      and the message when failed. */
  datatype JobStatus = Queued | Progress | Ready(path: string) | Error(message: string) {

    predicate HasFilePath() {
      Ready?
    }

    predicate IsTerminal() {
      Ready? || Error?
    }

    /** The state name the status carries. */
    function State(): string {
      match this
      case Queued => "queued"
      case Progress => "progress"
      case Ready(_) => "ready"
      case Error(_) => "error"
    }

    /** The optional payload: the path or the message. */
    function Data(): Option<string> {
      match this
      case Ready(p) => Some(p)
      case Error(m) => Some(m)
      case _ => None
    }

    /** Position in the lifecycle queued -> progress -> ready | error. */
    function Rank(): nat {
      match this
      case Queued => 0
      case Progress => 1
      case _ => 2
    }
  }

  /** The status record keeps a state name and an optional payload: only a
      finished job carries one, and `has_file_path` holds exactly for the
      state named 'ready', whose payload is the path. */
  lemma StatusRecord(s: JobStatus)
    ensures s.State() in {"queued", "progress", "ready", "error"}
    ensures s.HasFilePath() <==> s.State() == "ready"
    ensures s.Data().Some? <==> s.IsTerminal()
    ensures s.HasFilePath() ==> s.Data() == Some(s.path)
    ensures s.Error? ==> s.Data() == Some(s.message)
  {
  }

  // ---------------------------------------------------------------------
  // quick_sort

  /** `[item for item in xs if item < p]` */
  function Below(xs: seq<int>, p: int): seq<int> {
    if |xs| == 0 then [] else (if xs[0] < p then [xs[0]] else []) + Below(xs[1..], p)
  }

  /** `[item for item in xs if item == p]` */
  function Same(xs: seq<int>, p: int): seq<int> {
    if |xs| == 0 then [] else (if xs[0] == p then [xs[0]] else []) + Same(xs[1..], p)
  }

  /** `[item for item in xs if item > p]` */
  function Above(xs: seq<int>, p: int): seq<int> {
    if |xs| == 0 then [] else (if xs[0] > p then [xs[0]] else []) + Above(xs[1..], p)
  }

  /** How often each value occurs in a comprehension: as often as in the
      input when the condition holds of it, never otherwise. */
  lemma {:induction false} BelowCount(xs: seq<int>, p: int, y: int)
    ensures multiset(Below(xs, p))[y] == if y < p then multiset(xs)[y] else 0
    decreases |xs|
  {
    if |xs| > 0 {
      BelowCount(xs[1..], p, y);
      assert xs == [xs[0]] + xs[1..];
    }
  }

  lemma {:induction false} SameCount(xs: seq<int>, p: int, y: int)
    ensures multiset(Same(xs, p))[y] == if y == p then multiset(xs)[y] else 0
    decreases |xs|
  {
    if |xs| > 0 {
      SameCount(xs[1..], p, y);
      assert xs == [xs[0]] + xs[1..];
    }
  }

  lemma {:induction false} AboveCount(xs: seq<int>, p: int, y: int)
    ensures multiset(Above(xs, p))[y] == if y > p then multiset(xs)[y] else 0
    decreases |xs|
  {
    if |xs| > 0 {
      AboveCount(xs[1..], p, y);
      assert xs == [xs[0]] + xs[1..];
    }
  }

  /** The three comprehensions together hold every element exactly once. */
  lemma PartitionMultiset(xs: seq<int>, p: int)
    ensures multiset(Below(xs, p)) + multiset(Same(xs, p)) + multiset(Above(xs, p)) == multiset(xs)
  {
    forall y
      ensures (multiset(Below(xs, p)) + multiset(Same(xs, p)) + multiset(Above(xs, p)))[y] == multiset(xs)[y]
    {
      BelowCount(xs, p, y);
      SameCount(xs, p, y);
      AboveCount(xs, p, y);
    }
  }

  /** The pivot itself is among the elements equal to it. */
  lemma SameNonEmpty(xs: seq<int>, p: int)
    requires p in xs
    ensures |Same(xs, p)| > 0
  {
    assert p in multiset(xs);
    SameCount(xs, p, p);
  }

  /** Everything in a sorted permutation of the smaller elements is smaller
      than the pivot; likewise for the larger ones and the equal ones. */
  lemma PartsBounded(xs: seq<int>, p: int, head: seq<int>, tail: seq<int>)
    requires multiset(head) == multiset(Below(xs, p)) && multiset(tail) == multiset(Above(xs, p))
    ensures forall i :: 0 <= i < |head| ==> head[i] < p
    ensures forall i :: 0 <= i < |Same(xs, p)| ==> Same(xs, p)[i] == p
    ensures forall i :: 0 <= i < |tail| ==> tail[i] > p
  {
    forall i | 0 <= i < |head| ensures head[i] < p {
      assert head[i] in multiset(head);
      BelowCount(xs, p, head[i]);
    }
    forall i | 0 <= i < |Same(xs, p)| ensures Same(xs, p)[i] == p {
      assert Same(xs, p)[i] in multiset(Same(xs, p));
      SameCount(xs, p, Same(xs, p)[i]);
    }
    forall i | 0 <= i < |tail| ensures tail[i] > p {
      assert tail[i] in multiset(tail);
      AboveCount(xs, p, tail[i]);
    }
  }

  lemma SortedJoin(a: seq<int>, m: seq<int>, b: seq<int>, p: int)
    requires Sorted(a) && Sorted(b)
    requires forall i :: 0 <= i < |a| ==> a[i] < p
    requires forall i :: 0 <= i < |m| ==> m[i] == p
    requires forall i :: 0 <= i < |b| ==> b[i] > p
    ensures Sorted(a + m + b)
  {
  }

  /** quick_sort: three-way partition around the element at a pivot index,
      recursing on the strictly smaller and strictly larger parts. The random
      index `randint(0, len - 1)` is the oracle `pick`, reduced into range;
      every index is reachable, so every run of the source is a run of this
      function for some oracle. */
  function QuickSort(xs: seq<int>, pick: seq<int> -> nat): (r: seq<int>)
    ensures Sorted(r)
    ensures multiset(r) == multiset(xs)
    ensures |xs| <= 1 ==> r == xs
    decreases |xs|
  {
    if |xs| <= 1 then
      xs
    else
      var pivot := xs[pick(xs) % |xs|];
      PartitionMultiset(xs, pivot);
      SameNonEmpty(xs, pivot);
      assert |Below(xs, pivot)| + |Same(xs, pivot)| + |Above(xs, pivot)| == |xs| by {
        assert |multiset(Below(xs, pivot)) + multiset(Same(xs, pivot)) + multiset(Above(xs, pivot))| == |multiset(xs)|;
      }
      var head := QuickSort(Below(xs, pivot), pick);
      var tail := QuickSort(Above(xs, pivot), pick);
      PartsBounded(xs, pivot, head, tail);
      SortedJoin(head, Same(xs, pivot), tail, pivot);
      head + Same(xs, pivot) + tail
  }

  /** The pivot choices do not show in the result: every oracle yields the
      reference sort of the input. */
  lemma QuickSortPivotFree(xs: seq<int>, pick: seq<int> -> nat, pick': seq<int> -> nat)
    ensures QuickSort(xs, pick) == QuickSort(xs, pick')
    ensures QuickSort(xs, pick) == InsertionSort(xs)
  {
    IsInsertionSort(xs, QuickSort(xs, pick));
    IsInsertionSort(xs, QuickSort(xs, pick'));
  }

  // ---------------------------------------------------------------------
  // merge_int_iterables

  predicate AllNonEmpty(parts: seq<seq<int>>) {
    forall i :: 0 <= i < |parts| ==> |parts[i]| > 0
  }

  predicate AllSorted(parts: seq<seq<int>>) {
    forall i :: 0 <= i < |parts| ==> Sorted(parts[i])
  }

  /** The scan over the current heads: `best` is the index holding
      `min_value` (None while it is still infinity), and an index replaces it
      only when its head is strictly smaller. */
  function Scan(parts: seq<seq<int>>, i: nat, best: Option<nat>): (k: nat)
    requires AllNonEmpty(parts) && |parts| > 0 && i <= |parts|
    requires best.None? <==> i == 0
    requires best.Some? ==> best.value < i
    requires best.Some? ==> forall j :: 0 <= j < i ==> parts[best.value][0] <= parts[j][0]
    requires best.Some? ==> forall j :: 0 <= j < best.value ==> parts[best.value][0] < parts[j][0]
    ensures k < |parts|
    ensures forall j :: 0 <= j < |parts| ==> parts[k][0] <= parts[j][0]
    ensures forall j :: 0 <= j < k ==> parts[k][0] < parts[j][0]
    decreases |parts| - i
  {
    if i == |parts| then
      best.value
    else if best.None? || parts[i][0] < parts[best.value][0] then
      Scan(parts, i + 1, Some(i))
    else
      Scan(parts, i + 1, best)
  }

  /** The part to advance: the FIRST part whose head is minimal, because the
      comparison is a strict `<`. */
  function MinIndex(parts: seq<seq<int>>): (k: nat)
    requires AllNonEmpty(parts) && |parts| > 0
    ensures k < |parts|
    ensures forall j :: 0 <= j < |parts| ==> parts[k][0] <= parts[j][0]
    ensures forall j :: 0 <= j < k ==> parts[k][0] < parts[j][0]
  {
    Scan(parts, 0, None)
  }

  /** The concatenation around one part. */
  lemma {:induction false} FlattenAround(parts: seq<seq<int>>, k: nat)
    requires k < |parts|
    ensures Flatten(parts) == Flatten(parts[..k]) + parts[k] + Flatten(parts[k + 1..])
    decreases k
  {
    if k == 0 {
      assert parts[..0] == [];
      assert parts[1..] == parts[k + 1..];
    } else {
      var t := parts[1..];
      FlattenAround(t, k - 1);
      assert t[..k - 1] == parts[..k][1..] && t[k - 1] == parts[k] && t[k..] == parts[k + 1..];
      assert Flatten(parts[..k]) == parts[0] + Flatten(t[..k - 1]);
    }
  }

  /** Taking the head of part `k`: the part moves one element on, and is
      dropped when that was its last element. */
  function Advance(parts: seq<seq<int>>, k: nat): (r: seq<seq<int>>)
    requires AllNonEmpty(parts) && k < |parts|
    ensures AllNonEmpty(r)
    ensures |r| == |parts| - 1 <==> |parts[k]| == 1
    ensures |parts[k]| > 1 ==> |r| == |parts| && r[k] == parts[k][1..]
    ensures forall j :: 0 <= j < k ==> r[j] == parts[j]
    ensures |parts[k]| == 1 ==> forall j :: k < j < |parts| ==> r[j - 1] == parts[j]
    ensures |parts[k]| > 1 ==> forall j :: k < j < |parts| ==> r[j] == parts[j]
  {
    if |parts[k]| == 1 then parts[..k] + parts[k + 1..] else parts[k := parts[k][1..]]
  }

  lemma DropMultiset(parts: seq<seq<int>>, k: nat, r: seq<seq<int>>)
    requires k < |parts| && |parts[k]| == 1 && r == parts[..k] + parts[k + 1..]
    ensures multiset(Flatten(parts)) == multiset{parts[k][0]} + multiset(Flatten(r))
  {
    FlattenAround(parts, k);
    FlattenAppend(parts[..k], parts[k + 1..]);
    assert parts[k] == [parts[k][0]];
  }

  lemma StepMultiset(parts: seq<seq<int>>, k: nat, r: seq<seq<int>>)
    requires k < |parts| && |parts[k]| > 1 && r == parts[k := parts[k][1..]]
    ensures multiset(Flatten(parts)) == multiset{parts[k][0]} + multiset(Flatten(r))
  {
    FlattenAround(parts, k);
    FlattenAround(r, k);
    assert r[..k] == parts[..k] && r[k + 1..] == parts[k + 1..];
    assert parts[k] == [parts[k][0]] + r[k];
  }

  /** Taking a head removes one occurrence of it and nothing else. */
  lemma AdvanceMultiset(parts: seq<seq<int>>, k: nat)
    requires AllNonEmpty(parts) && k < |parts|
    ensures multiset(Flatten(parts)) == multiset{parts[k][0]} + multiset(Flatten(Advance(parts, k)))
    ensures |Flatten(parts)| == |Flatten(Advance(parts, k))| + 1
  {
    if |parts[k]| == 1 {
      DropMultiset(parts, k, Advance(parts, k));
    } else {
      StepMultiset(parts, k, Advance(parts, k));
    }
    assert |multiset(Flatten(parts))| == |multiset(Flatten(Advance(parts, k)))| + 1;
  }

  /** Advancing keeps every part sorted. */
  lemma AdvanceSorted(parts: seq<seq<int>>, k: nat)
    requires AllNonEmpty(parts) && AllSorted(parts) && k < |parts|
    ensures AllSorted(Advance(parts, k))
  {
    if |parts[k]| > 1 {
      SortedTail(parts[k]);
    }
  }

  /** Elements of the parts are bounded below by the smallest head when the
      parts are sorted. */
  lemma HeadsBoundAll(parts: seq<seq<int>>, k: nat, x: int)
    requires AllNonEmpty(parts) && AllSorted(parts) && k < |parts|
    requires forall j :: 0 <= j < |parts| ==> parts[k][0] <= parts[j][0]
    requires x in Flatten(parts)
    ensures parts[k][0] <= x
  {
    FlattenMember(parts, x);
    var i, j :| 0 <= i < |parts| && 0 <= j < |parts[i]| && parts[i][j] == x;
    assert parts[i][0] <= parts[i][j];
  }

  /** merge_int_iterables: repeatedly emit the smallest current head (first
      part on ties) and advance that part, until no part remains. Every part
      must be non-empty: the source calls `next` on each part up front. */
  function Merge(parts: seq<seq<int>>): (r: seq<int>)
    requires AllNonEmpty(parts)
    ensures multiset(r) == multiset(Flatten(parts))
    ensures |r| == TotalLength(parts)
    decreases TotalLength(parts)
  {
    if |parts| == 0 then
      []
    else
      var k := MinIndex(parts);
      var rest := Advance(parts, k);
      AdvanceMultiset(parts, k);
      [parts[k][0]] + Merge(rest)
  }

  /** Merging sorted parts gives a sorted sequence. */
  lemma {:induction false} MergeSorted(parts: seq<seq<int>>)
    requires AllNonEmpty(parts) && AllSorted(parts)
    ensures Sorted(Merge(parts))
    decreases TotalLength(parts)
  {
    if |parts| > 0 {
      var k := MinIndex(parts);
      var rest := Advance(parts, k);
      var tail := Merge(rest);
      AdvanceMultiset(parts, k);
      AdvanceSorted(parts, k);
      MergeSorted(rest);
      forall i | 0 <= i < |tail| ensures parts[k][0] <= tail[i] {
        assert tail[i] in multiset(Flatten(rest));
        assert tail[i] in multiset(Flatten(parts));
        HeadsBoundAll(parts, k, tail[i]);
      }
      SortedCons(parts[k][0], tail);
    }
  }

  /** Merging sorted parts is sorting their concatenation. */
  lemma MergeIsSort(parts: seq<seq<int>>)
    requires AllNonEmpty(parts) && AllSorted(parts)
    ensures Merge(parts) == InsertionSort(Flatten(parts))
  {
    MergeSorted(parts);
    IsInsertionSort(Flatten(parts), Merge(parts));
  }

  /** A single part comes out exactly as it went in, sorted or not: each part
      is consumed front to back. */
  lemma {:induction false} MergeSingle(p: seq<int>)
    requires |p| > 0
    ensures Merge([p]) == p
    decreases |p|
  {
    if |p| == 1 {
      MergeSingleStep(p);
    } else {
      calc {
        Merge([p]);
        { MergeSingleStep(p); }
        [p[0]] + Merge([p[1..]]);
        { MergeSingle(p[1..]); }
        [p[0]] + p[1..];
      }
      assert [p[0]] + p[1..] == p;
    }
  }

  /** One step of the merge over a single part takes its head and leaves
      the rest of the part, if any. */
  lemma MergeSingleStep(p: seq<int>)
    requires |p| > 0
    ensures |p| == 1 ==> Merge([p]) == p
    ensures |p| > 1 ==> Merge([p]) == [p[0]] + Merge([p[1..]])
  {
    assert MinIndex([p]) == 0;
    if |p| > 1 {
      assert Advance([p], 0) == [p[1..]];
    } else {
      assert Advance([p], 0) == [];
    }
  }
}
