/** Background jobs: three worker threads, each with its own queue, and any number of threads that
    submit jobs, ask for pending ones and wait for a queue to drain.

    Every method is one stretch of code that runs under a worker's mutex, or the processing of
    one job between two such stretches; a run interleaves them in any order. */
module Bio {
  datatype JobType = CloseFile | AofFsync | CloseAof | LazyFree

  datatype Job = Job(kind: JobType, offset: int)

  /** `bio_job_to_worker`. */
  function WorkerOf(t: JobType): (w: nat)
    ensures w < 3
  {
    match t
    case CloseFile => 0
    case AofFsync => 1
    case CloseAof => 1
    case LazyFree => 2
  }

  /** What a worker thread is doing: waiting for work, processing the first job of its queue
      without the lock, or about to take the lock and remove that job. */
  datatype Phase = Waiting | Processing(job: Job) | Processed(job: Job)

  function CountOf(q: seq<Job>, t: JobType): nat {
    if |q| == 0 then 0 else CountOf(q[..|q| - 1], t) + if q[|q| - 1].kind == t then 1 else 0
  }

  lemma CountMore(q: seq<Job>, j: Job, t: JobType)
    ensures CountOf(q + [j], t) == CountOf(q, t) + if j.kind == t then 1 else 0
  {
    assert (q + [j])[..|q|] == q;
  }

  lemma {:induction false} CountLess(q: seq<Job>, t: JobType)
    requires |q| > 0
    ensures CountOf(q, t) == CountOf(q[1..], t) + if q[0].kind == t then 1 else 0
  {
    if |q| > 1 {
      var front := q[..|q| - 1];
      CountLess(front, t);
      assert front[1..] == q[1..][..|q| - 2];
    } else {
      assert q[1..] == [] && q[..0] == [];
    }
  }

  predicate IsAof(t: JobType) {
    t == AofFsync || t == CloseAof
  }

  /** The offsets published for some processed jobs; `done[i]` if the fsync of job i succeeded. */
  function Published(jobs: seq<Job>, done: seq<bool>): seq<int>
    requires |done| == |jobs|
  {
    if |jobs| == 0 then []
    else
      var n := |jobs| - 1;
      Published(jobs[..n], done[..n]) + if done[n] && IsAof(jobs[n].kind) then [jobs[n].offset] else []
  }

  predicate NonDecreasing(s: seq<int>) {
    forall i, j :: 0 <= i < j < |s| ==> s[i] <= s[j]
  }

  predicate OffsetsInOrder(jobs: seq<Job>) {
    forall i, j :: 0 <= i < j < |jobs| && IsAof(jobs[i].kind) && IsAof(jobs[j].kind) ==>
        jobs[i].offset <= jobs[j].offset
  }

  lemma {:induction false} PublishedFrom(jobs: seq<Job>, done: seq<bool>, x: int)
    requires |done| == |jobs| && x in Published(jobs, done)
    ensures exists i :: 0 <= i < |jobs| && IsAof(jobs[i].kind) && jobs[i].offset == x
  {
    var n := |jobs| - 1;
    if x in Published(jobs[..n], done[..n]) {
      PublishedFrom(jobs[..n], done[..n], x);
      var i :| 0 <= i < n && IsAof(jobs[..n][i].kind) && jobs[..n][i].offset == x;
      assert jobs[i] == jobs[..n][i];
    } else {
      assert IsAof(jobs[n].kind) && jobs[n].offset == x;
    }
  }

  /** Offsets that are submitted in order are published in order, whatever fsyncs fail. */
  lemma {:induction false} PublishedInOrder(jobs: seq<Job>, done: seq<bool>)
    requires |done| == |jobs| && OffsetsInOrder(jobs)
    ensures NonDecreasing(Published(jobs, done))
  {
    if |jobs| > 0 {
      var n := |jobs| - 1;
      var front := Published(jobs[..n], done[..n]);
      PublishedInOrder(jobs[..n], done[..n]);
      if done[n] && IsAof(jobs[n].kind) {
        forall k | 0 <= k < |front| ensures front[k] <= jobs[n].offset {
          var x := front[k];
          assert x in front;
          PublishedFrom(jobs[..n], done[..n], x);
          var i :| 0 <= i < n && IsAof(jobs[..n][i].kind) && jobs[..n][i].offset == x;
          assert jobs[i] == jobs[..n][i];
        }
        assert Published(jobs, done) == front + [jobs[n].offset];
      } else {
        assert Published(jobs, done) == front;
      }
    }
  }

  /** The jobs a worker has still to process, in order. */
  function Ahead(q: seq<Job>, ph: Phase): seq<Job> {
    if ph.Processed? && |q| > 0 then q[1..] else q
  }

  /** The queue keeps the job being processed; processed and queued jobs are the submitted ones. */
  ghost predicate WorkerOk(w: nat, q: seq<Job>, ph: Phase, submitted: seq<Job>, processed: seq<Job>) {
    && (!ph.Waiting? ==> |q| > 0 && q[0] == ph.job)
    && submitted == processed + Ahead(q, ph)
    && forall i :: 0 <= i < |q| ==> WorkerOf(q[i].kind) == w
  }

  lemma SubmitOk(w: nat, q: seq<Job>, ph: Phase, s: seq<Job>, p: seq<Job>, job: Job)
    requires WorkerOk(w, q, ph, s, p) && WorkerOf(job.kind) == w
    ensures WorkerOk(w, q + [job], ph, s + [job], p)
  {
    assert Ahead(q + [job], ph) == Ahead(q, ph) + [job];
  }

  lemma ProcessOk(w: nat, q: seq<Job>, ph: Phase, s: seq<Job>, p: seq<Job>)
    requires WorkerOk(w, q, ph, s, p) && ph.Processing?
    ensures WorkerOk(w, q, Processed(ph.job), s, p + [ph.job]) && WorkerOf(ph.job.kind) == w
  {
    assert q == [q[0]] + q[1..];
  }

  lemma RemoveOk(w: nat, q: seq<Job>, ph: Phase, s: seq<Job>, p: seq<Job>)
    requires WorkerOk(w, q, ph, s, p) && ph.Processed?
    ensures |q| > 0 && WorkerOk(w, q[1..], Waiting, s, p) && WorkerOf(ph.job.kind) == w && q[0] == ph.job
  {}

  /** Each type counter is the number of its jobs in the queue of its worker. */
  ghost predicate CountersOk(counter: map<JobType, nat>, queue: seq<seq<Job>>) {
    |queue| == 3 && forall t: JobType :: t in counter && counter[t] == CountOf(queue[WorkerOf(t)], t)
  }

  lemma SubmitCounters(counter: map<JobType, nat>, queue: seq<seq<Job>>, job: Job)
    requires CountersOk(counter, queue)
    ensures var w := WorkerOf(job.kind);
            CountersOk(counter[job.kind := counter[job.kind] + 1], queue[w := queue[w] + [job]])
  {
    hide CountOf;
    var w := WorkerOf(job.kind);
    forall t: JobType ensures CountOf(queue[w] + [job], t) == CountOf(queue[w], t) + if job.kind == t then 1 else 0 {
      CountMore(queue[w], job, t);
    }
  }

  lemma RemoveCounters(counter: map<JobType, nat>, queue: seq<seq<Job>>, w: nat)
    requires CountersOk(counter, queue) && w < 3 && |queue[w]| > 0 && WorkerOf(queue[w][0].kind) == w
    ensures var t := queue[w][0].kind;
            t in counter && counter[t] > 0 && CountersOk(counter[t := counter[t] - 1], queue[w := queue[w][1..]])
  {
    hide CountOf;
    var job := queue[w][0];
    forall t: JobType ensures CountOf(queue[w], t) == CountOf(queue[w][1..], t) + if job.kind == t then 1 else 0 {
      CountLess(queue[w], t);
    }
    assert counter[job.kind] == CountOf(queue[w], job.kind);
  }

  /** Every history is an extension of what it was. */
  ghost predicate Grown(a: seq<seq<Job>>, b: seq<seq<Job>>) {
    |a| == |b| && forall w :: 0 <= w < |a| ==> a[w] <= b[w]
  }

  ghost function Last(p: seq<int>, initial: int): int {
    if |p| == 0 then initial else p[|p| - 1]
  }

  class Workers {
    var queue: seq<seq<Job>>         // bio_jobs
    var phase: seq<Phase>
    var counter: map<JobType, nat>   // bio_jobs_counter
    var published: int               // fsynced_reploff_pending
    ghost var submitted: seq<seq<Job>>
    ghost var processed: seq<seq<Job>>
    ghost var done: seq<bool>        // of the jobs processed by the AOF worker
    ghost var initial: int

    ghost predicate Valid()
      reads this
    {
      && |queue| == |phase| == |submitted| == |processed| == 3
      && (forall w :: 0 <= w < 3 ==> WorkerOk(w, queue[w], phase[w], submitted[w], processed[w]))
      && CountersOk(counter, queue)
      && |done| == |processed[1]| && published == Last(Published(processed[1], done), initial)
    }

    /** `bioInit`. */
    constructor (start: int)
      ensures Valid() && published == initial == start && submitted == [[], [], []]
    {
      queue, phase := [[], [], []], [Waiting, Waiting, Waiting];
      counter := map[CloseFile := 0, AofFsync := 0, CloseAof := 0, LazyFree := 0];
      published, initial := start, start;
      submitted, processed, done := [[], [], []], [[], [], []], [];
      new;
      forall t: JobType ensures t in counter && counter[t] == CountOf(queue[WorkerOf(t)], t) {
        match t {
          case CloseFile => case AofFsync => case CloseAof => case LazyFree =>
        }
      }
    }

    /** `bioSubmitJob`. */
    method Submit(job: Job)
      requires Valid()
      modifies `queue, `counter, `submitted
      ensures Valid()
      ensures var w := if job.kind == CloseFile then 0 else if job.kind == LazyFree then 2 else 1;
              submitted == old(submitted)[w := old(submitted)[w] + [job]] &&
                  queue == old(queue)[w := old(queue)[w] + [job]]
    {
      hide WorkerOk, CountersOk, Published, Last;
      var w := WorkerOf(job.kind);
      SubmitOk(w, queue[w], phase[w], submitted[w], processed[w], job);
      SubmitCounters(counter, queue, job);
      CounterThere(counter, queue, job.kind);
      queue := queue[w := queue[w] + [job]];
      counter := counter[job.kind := counter[job.kind] + 1];
      submitted := submitted[w := submitted[w] + [job]];
    }

    /** The worker takes the first job, leaves it in the queue and gives up the lock. */
    method Pick(w: nat)
      requires Valid() && w < 3 && phase[w].Waiting? && |queue[w]| > 0
      modifies `phase
      ensures Valid() && phase == old(phase)[w := Processing(queue[w][0])]
    {
      assert WorkerOk(w, queue[w], phase[w], submitted[w], processed[w]);
      assert WorkerOk(w, queue[w], Processing(queue[w][0]), submitted[w], processed[w]);
      hide WorkerOk, CountersOk, Published, Last;
      phase := phase[w := Processing(queue[w][0])];
    }

    /** The job is processed without the lock; `ok` if its fsync did not fail. */
    method Process(w: nat, ok: bool)
      requires Valid() && w < 3 && phase[w].Processing?
      modifies `phase, `published, `processed, `done
      ensures Valid()
      ensures phase == old(phase)[w := Processed(old(phase)[w].job)]
      ensures processed == old(processed)[w := old(processed)[w] + [old(phase)[w].job]]
      // an AOF that has been synced, or closed after that, publishes its offset
      ensures published == if ok && old(phase)[w].job.kind in {AofFsync, CloseAof} then old(phase)[w].job.offset
                           else old(published)
    {
      hide WorkerOk, CountersOk, Published;
      var job := phase[w].job;
      ProcessOk(w, queue[w], phase[w], submitted[w], processed[w]);
      if IsAof(job.kind) && ok {
        published := job.offset;
      }
      if w == 1 {
        PublishedNext(processed[1], done, job, ok);
        done := done + [ok];
      }
      phase := phase[w := Processed(job)];
      processed := processed[w := processed[w] + [job]];
    }

    /** The worker has the lock again: the job leaves the queue and the counter. */
    method Remove(w: nat)
      requires Valid() && w < 3 && phase[w].Processed?
      modifies `queue, `phase, `counter
      ensures Valid() && queue == old(queue)[w := old(queue)[w][1..]] && phase == old(phase)[w := Waiting]
    {
      hide WorkerOk, CountersOk, Published, Last;
      var job := phase[w].job;
      RemoveOk(w, queue[w], phase[w], submitted[w], processed[w]);
      RemoveCounters(counter, queue, w);
      queue := queue[w := queue[w][1..]];
      counter := counter[job.kind := counter[job.kind] - 1];
      phase := phase[w := Waiting];
    }

    /** `bioPendingJobsOfType`: the jobs of the type that are queued or being processed. */
    method Pending(t: JobType) returns (n: nat)
      requires Valid()
      ensures n == CountOf(queue[WorkerOf(t)], t)
    {
      n := counter[t];
    }

    /** One look of `bioDrainWorker` at the queue, under the lock.  When it finds the queue empty
        and returns, every job submitted before has been processed, once and in order. */
    method LookDrained(t: JobType) returns (empty: bool)
      requires Valid()
      ensures empty <==> |queue[WorkerOf(t)]| == 0
      ensures empty ==> processed[WorkerOf(t)] == submitted[WorkerOf(t)]
      ensures processed[WorkerOf(t)] <= submitted[WorkerOf(t)]
    {
      var w := WorkerOf(t);
      assert WorkerOk(w, queue[w], phase[w], submitted[w], processed[w]);
      empty := |queue[w]| == 0;
    }

    predicate Possible(e: Event)
      reads this
    {
      match e
      case Submits(_) => true
      case Picks(w) => w < |phase| && w < |queue| && w < 3 && phase[w].Waiting? && |queue[w]| > 0
      case Processes(w, _) => w < |phase| && w < 3 && phase[w].Processing?
      case Removes(w) => w < |phase| && w < 3 && phase[w].Processed?
    }

    lemma RemovedThere(e: Event)
      requires Valid() && Possible(e)
      ensures e.Removes? ==> |queue[e.w]| > 0
    {
      if e.Removes? {
        RemoveOk(e.w, queue[e.w], phase[e.w], submitted[e.w], processed[e.w]);
      }
    }

    method Step(e: Event)
      requires Valid() && Possible(e)
      modifies this
      ensures Valid() && Grown(old(submitted), submitted) && Grown(old(processed), processed)
      ensures SentAll(old(submitted), [e], submitted)
      ensures e.Processes? ==> |processed[e.w]| == |old(processed)[e.w]| + 1
      ensures e.Removes? ==> |queue[e.w]| == |old(queue)[e.w]| - 1
    {
      hide WorkerOk, CountersOk, Published, Last, SentAll, WorkerOf, Grown;
      RemovedThere(e);
      SentOne(submitted, e);
      GrownSame(submitted);
      GrownSame(processed);
      if e.Submits? {
        GrownAt(submitted, WorkerOf(e.job.kind), e.job);
      } else if e.Processes? {
        GrownAt(processed, e.w, phase[e.w].job);
      }
      match e
      case Submits(job) => Submit(job);
      case Picks(w) => Pick(w);
      case Processes(w, ok) => Process(w, ok);
      case Removes(w) => Remove(w);
    }

    /** In every interleaving each worker has processed a prefix of the jobs submitted to it, and
        offsets that were submitted in order have been published in order. */
    method Run(events: seq<Event>)
      requires Valid()
      modifies this
      ensures Valid()
      ensures forall w :: 0 <= w < 3 ==> processed[w] <= submitted[w]
      ensures SentAll(old(submitted), events, submitted)
      ensures OffsetsInOrder(submitted[1]) ==> NonDecreasing(Published(processed[1], done))
    {
      var i := 0;
      while i < |events|
        invariant 0 <= i <= |events| && Valid()
        invariant SentAll(old(submitted), events[..i], submitted)
      {
        hide WorkerOk, CountersOk, Published, Last, SentAll;
        ghost var before := submitted;
        SentOne(before, events[i]);
        if Possible(events[i]) {
          Step(events[i]);
        }
        SentNext(old(submitted), events, i, before, submitted);
        i := i + 1;
      }
      assert events[..i] == events;
      assert forall w :: 0 <= w < 3 ==> WorkerOk(w, queue[w], phase[w], submitted[w], processed[w]);
      if OffsetsInOrder(submitted[1]) {
        assert processed[1] <= submitted[1];
        PublishedInOrder(processed[1], done);
      }
    }
  }

  datatype Event = Submits(job: Job) | Picks(w: nat) | Processes(w: nat, ok: bool) | Removes(w: nat)

  /** The jobs that the events submit to a worker, in order. */
  ghost function Sent(events: seq<Event>, w: nat): seq<Job> {
    if |events| == 0 then []
    else
      var e := events[|events| - 1];
      Sent(events[..|events| - 1], w) + if e.Submits? && WorkerOf(e.job.kind) == w then [e.job] else []
  }

  /** Each worker's submitted jobs have grown by the jobs that the events submit to it. */
  ghost predicate SentAll(a: seq<seq<Job>>, events: seq<Event>, b: seq<seq<Job>>) {
    |a| == |b| == 3 && forall w :: 0 <= w < 3 ==> b[w] == a[w] + Sent(events, w)
  }

  lemma SentOne(a: seq<seq<Job>>, e: Event)
    requires |a| == 3
    ensures if e.Submits? then
              var w := if e.job.kind == CloseFile then 0 else if e.job.kind == LazyFree then 2 else 1;
              WorkerOf(e.job.kind) == w && SentAll(a, [e], a[w := a[w] + [e.job]])
            else SentAll(a, [e], a)
  {
    assert [e][..0] == [];
    forall w: nat ensures Sent([e], w) == if e.Submits? && WorkerOf(e.job.kind) == w then [e.job] else [] {
      assert Sent([], w) == [];
    }
  }

  lemma SentNext(a: seq<seq<Job>>, events: seq<Event>, n: nat, b: seq<seq<Job>>, c: seq<seq<Job>>)
    requires n < |events| && SentAll(a, events[..n], b) && SentAll(b, [events[n]], c)
    ensures SentAll(a, events[..n + 1], c)
  {
    var e := events[n];
    assert [e][..0] == [] && events[..n + 1][..n] == events[..n];
    forall w | 0 <= w < 3 ensures c[w] == a[w] + Sent(events[..n + 1], w) {
      assert Sent([], w) == [];
    }
  }

  lemma GrownSame(a: seq<seq<Job>>)
    ensures Grown(a, a)
  {}

  lemma GrownAt(a: seq<seq<Job>>, w: nat, job: Job)
    requires w < |a|
    ensures Grown(a, a[w := a[w] + [job]])
  {}

  lemma CounterThere(counter: map<JobType, nat>, queue: seq<seq<Job>>, t: JobType)
    requires CountersOk(counter, queue)
    ensures t in counter && counter[t] == CountOf(queue[WorkerOf(t)], t)
  {}

  lemma PublishedNext(jobs: seq<Job>, done: seq<bool>, job: Job, ok: bool)
    requires |done| == |jobs|
    ensures Published(jobs + [job], done + [ok]) ==
            Published(jobs, done) + if ok && IsAof(job.kind) then [job.offset] else []
  {
    assert (jobs + [job])[..|jobs|] == jobs && (done + [ok])[..|done|] == done;
  }
}
