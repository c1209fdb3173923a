/** lib/background.py, the status of every job as the master and the
    workers interleave: `add_job` on the submitting side, the loop of
    `BackgroundWorker._run` on the workers' side, `start` and `stop`. Each
    step is atomic; any interleaving of them is a run. */
module Lifecycle {
  import opened Wrappers
  import opened Common
  import opened Background

  // ---------------------------------------------------------------------
  // Ids held by the queue and by the workers

  /** The ids of the jobs waiting in the queue. */
  function QueueIds(q: seq<Item>): set<string>
    decreases |q|
  {
    if |q| == 0 then {}
    else (if q[0].Work? then {q[0].job.id} else {}) + QueueIds(q[1..])
  }

  /** No id waits in the queue twice. */
  predicate QueueDistinct(q: seq<Item>)
    decreases |q|
  {
    |q| == 0 || ((q[0].Work? ==> q[0].job.id !in QueueIds(q[1..])) && QueueDistinct(q[1..]))
  }

  /** The ids of the jobs the workers are processing. */
  function BusyIds(ws: seq<Worker>): set<string>
    decreases |ws|
  {
    if |ws| == 0 then {}
    else (if ws[0].Busy? then {ws[0].job.id} else {}) + BusyIds(ws[1..])
  }

  /** No id is processed by two workers at once. */
  predicate BusyDistinct(ws: seq<Worker>)
    decreases |ws|
  {
    |ws| == 0 || ((ws[0].Busy? ==> ws[0].job.id !in BusyIds(ws[1..])) && BusyDistinct(ws[1..]))
  }

  function QueuedIds(jobs: map<string, JobStatus>): set<string> {
    set id | id in jobs && jobs[id] == Queued
  }

  function ProgressIds(jobs: map<string, JobStatus>): set<string> {
    set id | id in jobs && jobs[id] == Progress
  }

  lemma {:induction false} QueueAppend(q: seq<Item>, x: Item)
    requires QueueDistinct(q)
    requires x.Work? ==> x.job.id !in QueueIds(q)
    ensures QueueIds(q + [x]) == QueueIds(q) + (if x.Work? then {x.job.id} else {})
    ensures QueueDistinct(q + [x])
    decreases |q|
  {
    if |q| == 0 {
      assert q + [x] == [x];
      assert [x][1..] == [];
    } else {
      assert (q + [x])[1..] == q[1..] + [x];
      QueueAppend(q[1..], x);
    }
  }

  lemma {:induction false} QueueAppendHalts(q: seq<Item>, n: nat)
    requires QueueDistinct(q)
    ensures QueueIds(q + Halts(n)) == QueueIds(q)
    ensures QueueDistinct(q + Halts(n))
    decreases n
  {
    if n > 0 {
      assert q + Halts(n) == (q + [Halt]) + Halts(n - 1);
      QueueAppend(q, Halt);
      QueueAppendHalts(q + [Halt], n - 1);
    } else {
      assert q + Halts(n) == q;
    }
  }

  /** A worker starting on a job whose id no worker holds. */
  lemma {:induction false} BusyStart(ws: seq<Worker>, w: nat, job: Job)
    requires w < |ws| && !ws[w].Busy? && BusyDistinct(ws) && job.id !in BusyIds(ws)
    ensures BusyIds(ws[w := Busy(job)]) == BusyIds(ws) + {job.id}
    ensures BusyDistinct(ws[w := Busy(job)])
    decreases w
  {
    if w > 0 {
      assert ws[w := Busy(job)][1..] == ws[1..][w - 1 := Busy(job)];
      BusyStart(ws[1..], w - 1, job);
    } else {
      assert ws[w := Busy(job)][1..] == ws[1..];
    }
  }

  /** A worker putting down the job it held. */
  lemma {:induction false} BusyEnd(ws: seq<Worker>, w: nat, x: Worker)
    requires w < |ws| && ws[w].Busy? && !x.Busy? && BusyDistinct(ws)
    ensures BusyIds(ws[w := x]) == BusyIds(ws) - {ws[w].job.id}
    ensures BusyDistinct(ws[w := x])
    decreases w
  {
    if w > 0 {
      assert ws[w := x][1..] == ws[1..][w - 1 := x];
      assert ws[1..][w - 1] == ws[w];
      BusyMember(ws[1..], w - 1);
      BusyEnd(ws[1..], w - 1, x);
    } else {
      assert ws[w := x][1..] == ws[1..];
    }
  }

  /** A worker that was not processing anything closing. */
  lemma {:induction false} BusyUnchanged(ws: seq<Worker>, w: nat, x: Worker)
    requires w < |ws| && !ws[w].Busy? && !x.Busy?
    ensures BusyIds(ws[w := x]) == BusyIds(ws)
    ensures BusyDistinct(ws) ==> BusyDistinct(ws[w := x])
    decreases w
  {
    if w > 0 {
      assert ws[w := x][1..] == ws[1..][w - 1 := x];
      BusyUnchanged(ws[1..], w - 1, x);
    } else {
      assert ws[w := x][1..] == ws[1..];
    }
  }

  lemma {:induction false} BusyAppendIdle(ws: seq<Worker>, n: nat)
    ensures BusyIds(ws + seq(n, _ => Idle)) == BusyIds(ws)
    ensures BusyDistinct(ws) ==> BusyDistinct(ws + seq(n, _ => Idle))
    decreases |ws|
  {
    if |ws| == 0 {
      IdlesBusyFree(n);
      assert ws + seq(n, _ => Idle) == seq(n, _ => Idle);
    } else {
      assert (ws + seq(n, _ => Idle))[1..] == ws[1..] + seq(n, _ => Idle);
      BusyAppendIdle(ws[1..], n);
    }
  }

  lemma {:induction false} IdlesBusyFree(n: nat)
    ensures BusyIds(seq(n, _ => Idle)) == {}
    ensures BusyDistinct(seq(n, _ => Idle))
    decreases n
  {
    if n > 0 {
      assert seq(n, _ => Idle)[1..] == seq(n - 1, _ => Idle);
      IdlesBusyFree(n - 1);
    }
  }

  // ---------------------------------------------------------------------
  // The invariant

  /** The status map agrees with where each job is: an id is queued exactly
      when its job waits in the queue, in progress exactly when a worker
      holds it, and no id is in two places. */
  predicate Inv(p: Pool) {
    QueueDistinct(p.queue) && BusyDistinct(p.workers) &&
    QueueIds(p.queue) == QueuedIds(p.jobs) && BusyIds(p.workers) == ProgressIds(p.jobs)
  }

  /** No status went back in the lifecycle, no id was forgotten, and a
      terminal status stayed as it was. */
  predicate Monotone(p: Pool, r: Pool) {
    forall id :: id in p.jobs ==>
      id in r.jobs && p.jobs[id].Rank() <= r.jobs[id].Rank() &&
      (p.jobs[id].IsTerminal() ==> r.jobs[id] == p.jobs[id])
  }

  lemma MonotoneTrans(p: Pool, q: Pool, r: Pool)
    requires Monotone(p, q) && Monotone(q, r)
    ensures Monotone(p, r)
  {
  }

  /** The master before anything happens satisfies the invariant. */
  lemma NewPoolInv()
    ensures Inv(NewPool())
  {
  }

  // ---------------------------------------------------------------------
  // Steps

  /** The atomic steps: the two halves of `add_job` as written, the whole of
      a corrected `add_job`, a worker taking an item, a worker finishing its
      job, `start` and `stop`. */
  datatype Action =
    | Enqueuing(job: Job)
    | Recording(id: string)
    | Submitting(job: Job)
    | Taking(w: nat)
    | Finishing(w: nat)
    | Starting(n: nat)
    | Stopping

  function Apply(p: Pool, a: Action, outcome: Job -> JobStatus): Pool {
    match a
    case Enqueuing(job) => Enqueue(p, job)
    case Recording(id) => RecordQueued(p, id)
    case Submitting(job) => Submit(p, job)
    case Taking(w) => Take(p, w)
    case Finishing(w) => Finish(p, w, outcome)
    case Starting(n) => Start(p, n)
    case Stopping => Stop(p)
  }

  /** The steps of the corrected master: `add_job` is one step. */
  predicate Corrected(a: Action) {
    !a.Enqueuing? && !a.Recording?
  }

  /** A submission uses an id not seen before, as a fresh uuid is. */
  predicate Enabled(p: Pool, a: Action) {
    a.Submitting? ==> a.job.id !in p.jobs
  }

  lemma SubmitKeepsInv(p: Pool, job: Job)
    requires Inv(p) && job.id !in p.jobs
    ensures Inv(Submit(p, job)) && Monotone(p, Submit(p, job))
  {
    var r := Submit(p, job);
    assert job.id !in QueueIds(p.queue);
    QueueAppend(p.queue, Work(job));
    assert QueuedIds(r.jobs) == QueuedIds(p.jobs) + {job.id};
    assert ProgressIds(r.jobs) == ProgressIds(p.jobs);
  }

  lemma TakeKeepsInv(p: Pool, w: nat)
    requires Inv(p)
    ensures Inv(Take(p, w)) && Monotone(p, Take(p, w))
  {
    var r := Take(p, w);
    if w < |p.workers| && p.workers[w].Idle? && |p.queue| > 0 {
      match p.queue[0]
      case Halt =>
        BusyUnchanged(p.workers, w, Exited);
      case Work(job) =>
        assert job.id in QueuedIds(p.jobs);
        assert QueueIds(r.queue) == QueueIds(p.queue) - {job.id};
        assert job.id !in BusyIds(p.workers);
        BusyStart(p.workers, w, job);
        assert QueuedIds(r.jobs) == QueuedIds(p.jobs) - {job.id};
        assert ProgressIds(r.jobs) == ProgressIds(p.jobs) + {job.id};
    }
  }

  lemma FinishKeepsInv(p: Pool, w: nat, outcome: Job -> JobStatus)
    requires Inv(p) && Terminal(outcome)
    ensures Inv(Finish(p, w, outcome)) && Monotone(p, Finish(p, w, outcome))
  {
    var r := Finish(p, w, outcome);
    if w < |p.workers| && p.workers[w].Busy? {
      var job := p.workers[w].job;
      BusyMember(p.workers, w);
      BusyEnd(p.workers, w, Idle);
      assert outcome(job).IsTerminal();
      assert QueuedIds(r.jobs) == QueuedIds(p.jobs);
      assert ProgressIds(r.jobs) == ProgressIds(p.jobs) - {job.id};
    }
  }

  /** Every corrected step keeps the invariant and moves statuses only
      forward: queued to progress when a worker takes the job, progress to a
      terminal status when it finishes. */
  lemma StepKeepsInv(p: Pool, a: Action, outcome: Job -> JobStatus)
    requires Inv(p) && Terminal(outcome) && Corrected(a) && Enabled(p, a)
    ensures Inv(Apply(p, a, outcome))
    ensures Monotone(p, Apply(p, a, outcome))
  {
    match a
    case Submitting(job) => SubmitKeepsInv(p, job);
    case Taking(w) => TakeKeepsInv(p, w);
    case Finishing(w) => FinishKeepsInv(p, w, outcome);
    case Starting(n) => BusyAppendIdle(p.workers, n);
    case Stopping => QueueAppendHalts(p.queue, |p.workers|);
  }

  lemma {:induction false} BusyMember(ws: seq<Worker>, w: nat)
    requires w < |ws| && ws[w].Busy?
    ensures ws[w].job.id in BusyIds(ws)
    decreases w
  {
    if w > 0 {
      assert ws[1..][w - 1] == ws[w];
      BusyMember(ws[1..], w - 1);
    }
  }

  /** The pool after a sequence of steps. */
  function Run(p: Pool, steps: seq<Action>, outcome: Job -> JobStatus): Pool
    decreases |steps|
  {
    if |steps| == 0 then p else Run(Apply(p, steps[0], outcome), steps[1..], outcome)
  }

  /** Every step of the run is a corrected step, enabled where it happens. */
  predicate CorrectedRun(p: Pool, steps: seq<Action>, outcome: Job -> JobStatus)
    decreases |steps|
  {
    |steps| == 0 ||
    (Corrected(steps[0]) && Enabled(p, steps[0]) &&
     CorrectedRun(Apply(p, steps[0], outcome), steps[1..], outcome))
  }

  /** Under any interleaving of corrected steps the invariant holds
      throughout and no status ever goes back. */
  lemma {:induction false} RunKeepsInv(p: Pool, steps: seq<Action>, outcome: Job -> JobStatus)
    requires Inv(p) && Terminal(outcome) && CorrectedRun(p, steps, outcome)
    ensures Inv(Run(p, steps, outcome))
    ensures Monotone(p, Run(p, steps, outcome))
    decreases |steps|
  {
    if |steps| > 0 {
      var next := Apply(p, steps[0], outcome);
      StepKeepsInv(p, steps[0], outcome);
      RunKeepsInv(next, steps[1..], outcome);
      MonotoneTrans(p, next, Run(p, steps, outcome));
    }
  }

  // ---------------------------------------------------------------------
  // `add_job` as written

  /** `add_job` as written is the enqueue step followed by the record
      step. */
  lemma AddJobSteps(p: Pool, id: string, concurrency: string, url: string, outcome: Job -> JobStatus)
    ensures AddJob(p, id, concurrency, url) ==
      Run(p, [Enqueuing(Job(id, concurrency, url)), Recording(id)], outcome)
  {
    var job := Job(id, concurrency, url);
    var p1 := Apply(p, Enqueuing(job), outcome);
    assert [Enqueuing(job), Recording(id)][1..] == [Recording(id)];
    assert Run(p1, [Recording(id)], outcome) == Run(Apply(p1, Recording(id), outcome), [], outcome);
  }

  /** A worker that takes the job between the two halves of `add_job` and
      finishes it lets the record step overwrite the terminal status with
      'queued', and nothing is left that would ever move it on. */
  lemma AddJobRace(outcome: Job -> JobStatus)
    requires Terminal(outcome)
    ensures Inv(Start(NewPool(), 1))
    ensures Run(Start(NewPool(), 1),
                [Enqueuing(Job("a", "1", "http://x")), Taking(0), Finishing(0)], outcome).jobs["a"].IsTerminal()
    ensures Run(Start(NewPool(), 1),
                [Enqueuing(Job("a", "1", "http://x")), Taking(0), Finishing(0), Recording("a")], outcome)
            == Pool([], map["a" := Queued], [Idle])
    ensures !Inv(Pool([], map["a" := Queued], [Idle]))
  {
    var job := Job("a", "1", "http://x");
    assert Start(NewPool(), 1) == Pool([], map[], [Idle]);
    IdlesBusyFree(1);
    RaceStates(job, outcome);
    RunThree(Start(NewPool(), 1), Enqueuing(job), Taking(0), Finishing(0), outcome);
    RunFour(Start(NewPool(), 1), Enqueuing(job), Taking(0), Finishing(0), Recording("a"), outcome);
    assert "a" in QueuedIds(map["a" := Queued]);
  }

  /** The pools the racing schedule passes through. */
  lemma RaceStates(job: Job, outcome: Job -> JobStatus)
    requires job.id == "a"
    ensures Apply(Pool([], map[], [Idle]), Enqueuing(job), outcome) == Pool([Work(job)], map[], [Idle])
    ensures Apply(Pool([Work(job)], map[], [Idle]), Taking(0), outcome) == Pool([], map["a" := Progress], [Busy(job)])
    ensures Apply(Pool([], map["a" := Progress], [Busy(job)]), Finishing(0), outcome) ==
      Pool([], map["a" := outcome(job)], [Idle])
    ensures Apply(Pool([], map["a" := outcome(job)], [Idle]), Recording("a"), outcome) ==
      Pool([], map["a" := Queued], [Idle])
  {
    assert map["a" := Progress]["a" := outcome(job)] == map["a" := outcome(job)];
    assert map["a" := outcome(job)]["a" := Queued] == map["a" := Queued];
  }

  lemma RunCons(p: Pool, a: Action, rest: seq<Action>, outcome: Job -> JobStatus)
    ensures Run(p, [a] + rest, outcome) == Run(Apply(p, a, outcome), rest, outcome)
  {
    assert ([a] + rest)[0] == a && ([a] + rest)[1..] == rest;
  }

  lemma RunThree(p: Pool, a: Action, b: Action, c: Action, outcome: Job -> JobStatus)
    ensures Run(p, [a, b, c], outcome) == Apply(Apply(Apply(p, a, outcome), b, outcome), c, outcome)
  {
    var p1 := Apply(p, a, outcome);
    var p2 := Apply(p1, b, outcome);
    assert [a, b, c] == [a] + [b, c] && [b, c] == [b] + [c] && [c] == [c] + [];
    RunCons(p, a, [b, c], outcome);
    RunCons(p1, b, [c], outcome);
    RunCons(p2, c, [], outcome);
  }

  lemma RunFour(p: Pool, a: Action, b: Action, c: Action, d: Action, outcome: Job -> JobStatus)
    ensures Run(p, [a, b, c, d], outcome) ==
      Apply(Apply(Apply(Apply(p, a, outcome), b, outcome), c, outcome), d, outcome)
  {
    assert [a, b, c, d] == [a] + [b, c, d];
    RunCons(p, a, [b, c, d], outcome);
    RunThree(Apply(p, a, outcome), b, c, d, outcome);
  }
}
