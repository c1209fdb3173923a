/** lib/background.py, BackgroundMaster and BackgroundWorker: the shared job
    queue, the status map, the workers, and what a worker does with each item
    it takes from the queue. Threads are replaced by explicit steps. */
module Background {
  import opened Wrappers
  import opened Common
  import opened Pipeline

  /** A queue item: a job, or the `None` that tells one worker to close. */
  datatype Item = Work(job: Job) | Halt

  /** A worker between items, while processing a job, or closed. */
  datatype Worker = Idle | Busy(job: Job) | Exited

  /** The master's state: the queue, the status of every submitted job by
      id, and the workers started so far. */
  datatype Pool = Pool(queue: seq<Item>, jobs: map<string, JobStatus>, workers: seq<Worker>)

  /** A master before `start`: no jobs, no workers, nothing queued. */
  function NewPool(): (r: Pool)
    ensures r.queue == [] && r.workers == []
    ensures forall id :: GetJobStatus(r, id).None?
  {
    Pool([], map[], [])
  }

  /** `start(worker_count)`: that many more workers, each waiting on the
      queue. */
  function Start(p: Pool, n: nat): (r: Pool)
    ensures r.queue == p.queue && r.jobs == p.jobs
    ensures |r.workers| == |p.workers| + n && r.workers[..|p.workers|] == p.workers
    ensures forall v :: |p.workers| <= v < |r.workers| ==> r.workers[v].Idle?
  {
    p.(workers := p.workers + seq(n, _ => Idle))
  }

  /** `n` close items. */
  function Halts(n: nat): (r: seq<Item>)
    ensures |r| == n && forall i :: 0 <= i < n ==> r[i].Halt?
  {
    seq(n, _ => Halt)
  }

  /** `stop`: one close item per started worker, behind everything already
      queued. */
  function Stop(p: Pool): (r: Pool)
    ensures r.jobs == p.jobs && r.workers == p.workers
    ensures |r.queue| == |p.queue| + |p.workers| && r.queue[..|p.queue|] == p.queue
    ensures forall i :: |p.queue| <= i < |r.queue| ==> r.queue[i].Halt?
  {
    p.(queue := p.queue + Halts(|p.workers|))
  }

  /** The first half of `add_job`: the job joins the queue. */
  function Enqueue(p: Pool, job: Job): (r: Pool)
    ensures |r.queue| == |p.queue| + 1 && r.queue[..|p.queue|] == p.queue && r.queue[|p.queue|] == Work(job)
    ensures r.jobs == p.jobs && r.workers == p.workers
  {
    p.(queue := p.queue + [Work(job)])
  }

  /** The second half of `add_job`: the id is recorded as queued. */
  function RecordQueued(p: Pool, id: string): (r: Pool)
    ensures GetJobStatus(r, id) == Some(Queued)
    ensures forall other :: other != id ==> GetJobStatus(r, other) == GetJobStatus(p, other)
    ensures r.queue == p.queue && r.workers == p.workers
  {
    p.(jobs := p.jobs[id := Queued])
  }

  /** `add_job` as written, with `id` the fresh uuid: enqueue, then record. */
  function AddJob(p: Pool, id: string, concurrency: string, url: string): (r: Pool)
    ensures GetJobStatus(r, id) == Some(Queued)
    ensures forall other :: other != id ==> GetJobStatus(r, other) == GetJobStatus(p, other)
    ensures r.queue == p.queue + [Work(Job(id, concurrency, url))] && r.workers == p.workers
  {
    RecordQueued(Enqueue(p, Job(id, concurrency, url)), id)
  }

  /** `add_job` with its two steps in the safe order: record, then enqueue. */
  function Submit(p: Pool, job: Job): (r: Pool)
    ensures GetJobStatus(r, job.id) == Some(Queued)
    ensures forall other :: other != job.id ==> GetJobStatus(r, other) == GetJobStatus(p, other)
    ensures r.queue == p.queue + [Work(job)] && r.workers == p.workers
  {
    Enqueue(RecordQueued(p, job.id), job)
  }

  /** `get_job_status`: the recorded status, or None for an id never
      submitted. */
  function GetJobStatus(p: Pool, id: string): (r: Option<JobStatus>)
    ensures r.None? <==> id !in p.jobs
  {
    if id in p.jobs then Some(p.jobs[id]) else None
  }

  /** Run on its own, `add_job` leaves the new id queued, puts the job with
      the raw parameters at the back of the queue and touches nothing else;
      both orders of its two steps give the same pool. */
  lemma AddJobQueues(p: Pool, id: string, concurrency: string, url: string)
    ensures GetJobStatus(AddJob(p, id, concurrency, url), id) == Some(Queued)
    ensures forall other :: other != id ==>
      GetJobStatus(AddJob(p, id, concurrency, url), other) == GetJobStatus(p, other)
    ensures AddJob(p, id, concurrency, url).queue == p.queue + [Work(Job(id, concurrency, url))]
    ensures AddJob(p, id, concurrency, url).workers == p.workers
    ensures AddJob(p, id, concurrency, url) == Submit(p, Job(id, concurrency, url))
  {
  }

  /** The top of the worker loop: an idle worker takes the item at the head
      of the queue. A close item closes it; a job is marked in progress. When
      the worker is not idle or the queue is empty nothing happens. */
  function Take(p: Pool, w: nat): (r: Pool)
    ensures |r.workers| == |p.workers|
    ensures forall v :: 0 <= v < |p.workers| && v != w ==> r.workers[v] == p.workers[v]
    ensures (w < |p.workers| && p.workers[w].Idle? && |p.queue| > 0) ==>
      (r.queue == p.queue[1..] &&
       (p.queue[0].Halt? ==> r.workers[w] == Exited && r.jobs == p.jobs) &&
       (p.queue[0].Work? ==>
         r.workers[w] == Busy(p.queue[0].job) && r.jobs == p.jobs[p.queue[0].job.id := Progress]))
    ensures !(w < |p.workers| && p.workers[w].Idle? && |p.queue| > 0) ==> r == p
  {
    if w < |p.workers| && p.workers[w].Idle? && |p.queue| > 0 then
      match p.queue[0]
      case Halt => p.(queue := p.queue[1..], workers := p.workers[w := Exited])
      case Work(job) => Pool(p.queue[1..], p.jobs[job.id := Progress], p.workers[w := Busy(job)])
    else
      p
  }

  /** Every job's attempt ends in a terminal status. */
  ghost predicate Terminal(outcome: Job -> JobStatus) {
    forall job :: outcome(job).IsTerminal()
  }

  /** A worker's attempt at a job is the attempt of the pipeline: validate,
      process, and turn the result or the failure into a status. */
  lemma PipelineTerminal(env: Env)
    ensures Terminal(job => Outcome(job, env))
  {
  }

  /** The rest of one loop iteration: the status `outcome(job)` of the job's
      attempt is stored under its id, and the worker is idle again. Nothing
      else in the pool changes. */
  function Finish(p: Pool, w: nat, outcome: Job -> JobStatus): (r: Pool)
    ensures r.queue == p.queue && |r.workers| == |p.workers|
    ensures forall v :: 0 <= v < |p.workers| && v != w ==> r.workers[v] == p.workers[v]
    ensures (w < |p.workers| && p.workers[w].Busy?) ==>
      (r.workers[w] == Idle &&
       p.workers[w].job.id in r.jobs && r.jobs[p.workers[w].job.id] == outcome(p.workers[w].job) &&
       forall id :: id != p.workers[w].job.id ==>
         (id in r.jobs <==> id in p.jobs) && (id in p.jobs ==> r.jobs[id] == p.jobs[id]))
    ensures !(w < |p.workers| && p.workers[w].Busy?) ==> r == p
  {
    if w < |p.workers| && p.workers[w].Busy? then
      var job := p.workers[w].job;
      p.(jobs := p.jobs[job.id := outcome(job)], workers := p.workers[w := Idle])
    else
      p
  }

  // ---------------------------------------------------------------------
  // One worker's loop

  /** The jobs a worker takes before the first close item, in queue order. */
  function Before(q: seq<Item>): (js: seq<Job>)
    ensures |js| <= |q|
    ensures forall i :: 0 <= i < |js| ==> q[i] == Work(js[i])
    ensures |js| < |q| ==> q[|js|].Halt?
  {
    if |q| == 0 || q[0].Halt? then [] else [q[0].job] + Before(q[1..])
  }

  /** What a worker leaves in the queue: everything after the first close
      item, or nothing when there is none. */
  function After(q: seq<Item>): seq<Item> {
    if |Before(q)| < |q| then q[|Before(q)| + 1..] else []
  }

  /** The ids of some jobs. */
  function Ids(js: seq<Job>): set<string> {
    set j | j in js :: j.id
  }

  /** No two of the jobs share an id. */
  predicate DistinctIds(js: seq<Job>) {
    forall i, j :: 0 <= i < j < |js| ==> js[i].id != js[j].id
  }

  /** `_run` for one worker, with no other worker taking items meanwhile:
      take the head item; close on a close item; otherwise process the job
      and go round again. The worker consumes the queue from the front up to
      and including the first close item, and closes exactly when it finds
      one. */
  function RunWorker(p: Pool, w: nat, outcome: Job -> JobStatus): (r: Pool)
    requires w < |p.workers| && p.workers[w].Idle?
    ensures |r.workers| == |p.workers|
    ensures forall v :: 0 <= v < |p.workers| && v != w ==> r.workers[v] == p.workers[v]
    ensures r.workers[w] == (if |Before(p.queue)| < |p.queue| then Exited else Idle)
    ensures r.queue == After(p.queue)
    decreases |p.queue|
  {
    if |p.queue| == 0 then
      p
    else
      var taken := Take(p, w);
      match p.queue[0]
      case Halt => taken
      case Work(job) =>
        var done := Finish(taken, w, outcome);
        assert p.queue[1..] == done.queue;
        assert |Before(p.queue)| == 1 + |Before(done.queue)|;
        assert After(p.queue) == After(done.queue) by {
          if |Before(done.queue)| < |done.queue| {
            assert p.queue[|Before(p.queue)| + 1..] == done.queue[|Before(done.queue)| + 1..];
          }
        }
        RunWorker(done, w, outcome)
  }

  /** Every job the worker takes ends terminal, and the status of every id
      it does not take is left as it was. */
  lemma {:induction false} RunWorkerStatuses(p: Pool, w: nat, outcome: Job -> JobStatus)
    requires w < |p.workers| && p.workers[w].Idle?
    ensures forall i :: 0 <= i < |Before(p.queue)| ==> Before(p.queue)[i].id in RunWorker(p, w, outcome).jobs
    ensures Terminal(outcome) ==> forall i :: 0 <= i < |Before(p.queue)| ==>
      RunWorker(p, w, outcome).jobs[Before(p.queue)[i].id].IsTerminal()
    ensures forall id :: id !in Ids(Before(p.queue)) ==>
      (id in RunWorker(p, w, outcome).jobs <==> id in p.jobs) &&
      (id in p.jobs ==> RunWorker(p, w, outcome).jobs[id] == p.jobs[id])
    decreases |p.queue|
  {
    if |p.queue| > 0 && p.queue[0].Work? {
      var job := p.queue[0].job;
      var done := Finish(Take(p, w), w, outcome);
      var r := RunWorker(done, w, outcome);
      assert r == RunWorker(p, w, outcome);
      assert p.queue[1..] == done.queue;
      assert Before(p.queue) == [job] + Before(done.queue);
      assert Ids(Before(p.queue)) == {job.id} + Ids(Before(done.queue));
      RunWorkerStatuses(done, w, outcome);
      forall i | 0 <= i < |Before(p.queue)|
        ensures Before(p.queue)[i].id in r.jobs
        ensures Terminal(outcome) ==> r.jobs[Before(p.queue)[i].id].IsTerminal()
      {
        if i > 0 {
          assert Before(p.queue)[i] == Before(done.queue)[i - 1];
        }
      }
    }
  }

  /** With distinct ids, every job a worker takes ends with exactly the
      status of its own attempt. */
  lemma {:induction false} RunWorkerOutcomes(p: Pool, w: nat, outcome: Job -> JobStatus)
    requires w < |p.workers| && p.workers[w].Idle?
    requires DistinctIds(Before(p.queue))
    ensures forall i :: 0 <= i < |Before(p.queue)| ==>
      Before(p.queue)[i].id in RunWorker(p, w, outcome).jobs &&
      RunWorker(p, w, outcome).jobs[Before(p.queue)[i].id] == outcome(Before(p.queue)[i])
    decreases |p.queue|
  {
    if |p.queue| > 0 && p.queue[0].Work? {
      var job := p.queue[0].job;
      var done := Finish(Take(p, w), w, outcome);
      assert p.queue[1..] == done.queue;
      var rest := Before(done.queue);
      assert Before(p.queue) == [job] + rest;
      assert DistinctIds(rest) by {
        forall i, j | 0 <= i < j < |rest| ensures rest[i].id != rest[j].id {
          assert rest[i] == Before(p.queue)[i + 1] && rest[j] == Before(p.queue)[j + 1];
        }
      }
      RunWorkerOutcomes(done, w, outcome);
      RunWorkerStatuses(done, w, outcome);
      assert job.id !in Ids(rest) by {
        forall k | 0 <= k < |rest| ensures rest[k].id != job.id {
          assert rest[k] == Before(p.queue)[k + 1];
        }
      }
      assert RunWorker(p, w, outcome) == RunWorker(done, w, outcome);
      forall i | 0 <= i < |Before(p.queue)|
        ensures Before(p.queue)[i].id in RunWorker(p, w, outcome).jobs
        ensures RunWorker(p, w, outcome).jobs[Before(p.queue)[i].id] == outcome(Before(p.queue)[i])
      {
        if i > 0 {
          assert Before(p.queue)[i] == rest[i - 1];
        }
      }
    }
  }

  // ---------------------------------------------------------------------
  // Shutting down

  /** The workers from `w` on, each run to completion in turn. */
  function DrainFrom(p: Pool, w: nat, outcome: Job -> JobStatus): (r: Pool)
    ensures |r.workers| == |p.workers| && |r.queue| <= |p.queue|
    ensures forall v :: 0 <= v < |p.workers| && (v < w || !p.workers[v].Idle?) ==> r.workers[v] == p.workers[v]
    decreases |p.workers| - w
  {
    if w >= |p.workers| then p
    else if p.workers[w].Idle? then DrainFrom(RunWorker(p, w, outcome), w + 1, outcome)
    else DrainFrom(p, w + 1, outcome)
  }

  /** Idle workers in front of a queue of one close item each take their
      own close item and close, and no status changes. */
  lemma {:induction false} HaltsClose(p: Pool, w: nat, outcome: Job -> JobStatus)
    requires w <= |p.workers|
    requires p.queue == Halts(|p.workers| - w)
    requires forall v :: w <= v < |p.workers| ==> p.workers[v].Idle?
    ensures DrainFrom(p, w, outcome).queue == []
    ensures DrainFrom(p, w, outcome).jobs == p.jobs
    ensures forall v :: w <= v < |p.workers| ==> DrainFrom(p, w, outcome).workers[v].Exited?
    ensures forall v :: 0 <= v < w ==> DrainFrom(p, w, outcome).workers[v] == p.workers[v]
    decreases |p.workers| - w
  {
    if w < |p.workers| {
      var next := RunWorker(p, w, outcome);
      assert Before(p.queue) == [];
      assert next.queue == Halts(|p.workers| - (w + 1));
      assert next.jobs == p.jobs;
      HaltsClose(next, w + 1, outcome);
    }
  }

  /** Jobs in front of a close item are exactly the jobs a worker takes. */
  lemma {:induction false} BeforeJobs(q: seq<Item>, tail: seq<Item>)
    requires forall i :: 0 <= i < |q| ==> q[i].Work?
    requires |tail| > 0 && tail[0].Halt?
    ensures |Before(q + tail)| == |q|
    ensures forall i :: 0 <= i < |q| ==> Before(q + tail)[i] == q[i].job
    decreases |q|
  {
    if |q| > 0 {
      assert (q + tail)[1..] == q[1..] + tail;
      BeforeJobs(q[1..], tail);
    } else {
      assert q + tail == tail;
    }
  }

  /** `stop` on a pool of idle workers with only jobs queued: when the
      workers then run in turn, every queued job ends terminal, every worker
      closes and the queue ends empty. */
  lemma StopShutsDown(p: Pool, outcome: Job -> JobStatus)
    requires |p.workers| > 0 && Terminal(outcome)
    requires forall v :: 0 <= v < |p.workers| ==> p.workers[v].Idle?
    requires forall i :: 0 <= i < |p.queue| ==> p.queue[i].Work?
    ensures DrainFrom(Stop(p), 0, outcome).queue == []
    ensures forall v :: 0 <= v < |p.workers| ==> DrainFrom(Stop(p), 0, outcome).workers[v].Exited?
    ensures forall i :: 0 <= i < |p.queue| ==>
      p.queue[i].job.id in DrainFrom(Stop(p), 0, outcome).jobs &&
      DrainFrom(Stop(p), 0, outcome).jobs[p.queue[i].job.id].IsTerminal()
  {
    var s := Stop(p);
    var n := |p.workers|;
    BeforeJobs(p.queue, Halts(n));
    var first := RunWorker(s, 0, outcome);
    RunWorkerStatuses(s, 0, outcome);
    assert first.queue == Halts(n - 1) by {
      assert After(s.queue) == s.queue[|p.queue| + 1..];
    }
    assert DrainFrom(s, 0, outcome) == DrainFrom(first, 1, outcome);
    HaltsClose(first, 1, outcome);
  }
}
