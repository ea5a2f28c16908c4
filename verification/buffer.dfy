/**
 The bounded request buffer shared by the dispatcher and the workers, with
 locking removed: each operation is the sequential effect of one critical
 section. The counting semaphore `req_sem` is kept as the number `pending`,
 because it is what lets a worker assume the list is non-empty.
 */
module Buffer {
  import opened Jobs
  import opened Scheduler

  /** The job list, `req_count`, `buffer_max_size`, and the value of `req_sem`. */
  datatype Queue = Queue(jobs: seq<Job>, count: int, capacity: int, pending: int)

  /** The buffer invariant: the count is the number of queued jobs, never
      above capacity, and no more semaphore tokens exist than jobs. */
  ghost predicate Valid(q: Queue)
  {
    0 <= q.pending <= q.count == |q.jobs| <= q.capacity
  }

  /** The state at start-up: empty list, zero count, the configured
      capacity, and the semaphore initialised to zero by `sem_init`. */
  function Init(capacity: int): (q: Queue)
    ensures Valid(q) <==> capacity >= 0
    ensures q.jobs == [] && q.count == 0 && q.pending == 0
    ensures q.capacity == capacity
  {
    Queue([], 0, capacity, 0)
  }

  /** The enqueue critical section of `request_handle`. None means the
      producer would wait on `req_not_full`: the buffer is full. */
  function Enqueue(q: Queue, job: Job): (r: Option<Queue>)
    ensures r.None? <==> q.count >= q.capacity
    ensures r.Some? ==> r.value.jobs == q.jobs + [job] && r.value.count == q.count + 1
    ensures r.Some? ==> r.value.capacity == q.capacity && r.value.pending == q.pending
    ensures Valid(q) && r.Some? ==> Valid(r.value)
  {
    if q.count >= q.capacity then None
    else Some(q.(jobs := q.jobs + [job], count := q.count + 1))
  }

  /** The whole producer step: enqueue, then post one semaphore token. */
  function Submit(q: Queue, job: Job): (r: Option<Queue>)
    ensures r.None? <==> q.count >= q.capacity
    ensures r.Some? ==> r.value.jobs == q.jobs + [job] && r.value.pending == q.pending + 1
    ensures r.Some? ==> r.value.count == q.count + 1 && r.value.capacity == q.capacity
    ensures Valid(q) && r.Some? ==> Valid(r.value)
  {
    match Enqueue(q, job)
    case None => None
    case Some(q') => Some(q'.(pending := q'.pending + 1))
  }

  /** The served job (None for a NULL pick) and the buffer afterwards. */
  datatype Served = Served(job: Option<Job>, queue: Queue)

  /** One worker iteration up to the unlock: take a semaphore token, pick a
      job, decrement the count. The count is decremented even when the
      pick returns NULL. */
  function Dequeue(q: Queue, algo: int, now: int, draw: nat): (r: Served)
    requires q.pending > 0
    requires (algo == SffAlgo || algo == RandomAlgo) ==> |q.jobs| > 0
    ensures r.queue.count == q.count - 1 && r.queue.pending == q.pending - 1
    ensures r.queue.capacity == q.capacity
    ensures r.job.None? ==> r.queue.jobs == q.jobs
    ensures r.job.Some? ==> |r.queue.jobs| == |q.jobs| - 1
    ensures r.job.Some? ==> multiset(r.queue.jobs) + multiset{r.job.value} == multiset(q.jobs)
    ensures Valid(q) && FifoAlgo <= algo <= RandomAlgo ==> r.job.Some? && Valid(r.queue)
    ensures var p := PickRequest(algo, q.jobs, now, draw);
      r.job == p.job && r.queue.jobs == p.rest
  {
    var p := PickRequest(algo, q.jobs, now, draw);
    Served(p.job, Queue(p.rest, q.count - 1, q.capacity, q.pending - 1))
  }

  /** A policy code outside 0..2 picks nothing, yet the count still drops:
      the count no longer matches the list. */
  lemma UnknownPolicyDesynchronisesCount(q: Queue, algo: int, now: int, draw: nat)
    requires Valid(q) && q.pending > 0
    requires algo < FifoAlgo || RandomAlgo < algo
    ensures Dequeue(q, algo, now, draw).job.None?
    ensures !Valid(Dequeue(q, algo, now, draw).queue)
  {
  }

  /** Submit the jobs one after another, stopping at the first that would block. */
  function SubmitAll(q: Queue, js: seq<Job>): Option<Queue>
    decreases |js|
  {
    if |js| == 0 then Some(q)
    else
      match Submit(q, js[0])
      case None => None
      case Some(q') => SubmitAll(q', js[1..])
  }

  /** While there is room, submitting jobs appends them at the tail in
      submission order and posts one token per job. */
  lemma {:induction false} SubmitAllAppends(q: Queue, js: seq<Job>)
    requires Valid(q) && q.count + |js| <= q.capacity
    ensures SubmitAll(q, js) == Some(Queue(q.jobs + js, q.count + |js|, q.capacity, q.pending + |js|))
    ensures Valid(SubmitAll(q, js).value)
    decreases |js|
  {
    if |js| > 0 {
      var q' := Submit(q, js[0]).value;
      SubmitAllAppends(q', js[1..]);
      assert q.jobs + [js[0]] + js[1..] == q.jobs + js;
    } else {
      assert q.jobs + js == q.jobs;
    }
  }

  /** Backpressure: after `capacity` submissions into an empty buffer, the
      next submission blocks. */
  lemma FullBufferBlocksNextSubmit(capacity: nat, js: seq<Job>, extra: Job)
    requires |js| == capacity
    ensures SubmitAll(Init(capacity), js).Some?
    ensures var q := SubmitAll(Init(capacity), js).value;
      q.jobs == js && Valid(q) && Submit(q, extra).None?
  {
    SubmitAllAppends(Init(capacity), js);
  }

  /** After a worker step on a valid buffer there is room, so a producer
      waiting on a full buffer can proceed. */
  lemma DequeueUnblocksSubmit(q: Queue, algo: int, now: int, draw: nat, job: Job)
    requires Valid(q) && q.pending > 0 && FifoAlgo <= algo <= RandomAlgo
    ensures Submit(Dequeue(q, algo, now, draw).queue, job).Some?
  {
  }

  /** Under FIFO, jobs submitted into an empty buffer are served in
      submission order. */
  lemma FifoServesInSubmissionOrder(capacity: nat, js: seq<Job>)
    requires |js| <= capacity
    ensures SubmitAll(Init(capacity), js).Some?
    ensures DrainFifo(SubmitAll(Init(capacity), js).value.jobs) == js
  {
    SubmitAllAppends(Init(capacity), js);
    FifoServesInListOrder(js);
  }

  /** Order bookkeeping for interleaved steps: the jobs already served,
      followed by the jobs still queued, are the jobs submitted so far. */
  ghost predicate InSubmissionOrder(served: seq<Job>, q: Queue, submitted: seq<Job>)
  {
    served + q.jobs == submitted
  }

  /** A producer step keeps submission order: the new job joins the end of
      both the queue and the submitted history. */
  lemma SubmitKeepsSubmissionOrder(served: seq<Job>, q: Queue, submitted: seq<Job>, job: Job)
    requires InSubmissionOrder(served, q, submitted)
    requires Submit(q, job).Some?
    ensures InSubmissionOrder(served, Submit(q, job).value, submitted + [job])
  {
    assert served + (q.jobs + [job]) == (served + q.jobs) + [job];
  }

  /** A FIFO worker step on a valid buffer serves the head and leaves the tail. */
  lemma FifoDequeueServesHead(q: Queue, now: int, draw: nat)
    requires Valid(q) && q.pending > 0
    ensures Dequeue(q, FifoAlgo, now, draw).job == Some(q.jobs[0])
    ensures Dequeue(q, FifoAlgo, now, draw).queue.jobs == q.jobs[1..]
  {
    FifoTakesHead(q.jobs, now, draw);
  }

  /** Moving the first queued job to the end of the served prefix keeps
      their concatenation, and that job is the next one in the history. */
  lemma HeadMovesToServed(served: seq<Job>, jobs: seq<Job>, submitted: seq<Job>)
    requires |jobs| > 0 && served + jobs == submitted
    ensures submitted[|served|] == jobs[0]
    ensures (served + [jobs[0]]) + jobs[1..] == submitted
  {
    assert jobs == [jobs[0]] + jobs[1..];
    assert submitted == served + ([jobs[0]] + jobs[1..]);
  }

  /** A FIFO worker step keeps submission order: the job it serves is the
      oldest job not yet served, whatever producer steps came between. */
  lemma FifoDequeueKeepsSubmissionOrder(served: seq<Job>, q: Queue, submitted: seq<Job>, now: int, draw: nat)
    requires Valid(q) && q.pending > 0
    requires InSubmissionOrder(served, q, submitted)
    ensures var r := Dequeue(q, FifoAlgo, now, draw);
      && r.job == Some(submitted[|served|])
      && InSubmissionOrder(served + [r.job.value], r.queue, submitted)
  {
    FifoDequeueServesHead(q, now, draw);
    HeadMovesToServed(served, q.jobs, submitted);
  }
}
