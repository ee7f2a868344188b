/** The linked job queue of the thread pool, and the binary semaphore that comes with it. */
module JobQueues {
  /** A function pointer and its argument. */
  type Task = nat

  const INT_MAX := 0x7fff_ffff

  class Job {
    var prev: Job?
    const task: Task

    constructor (task: Task)
      ensures this.task == task && prev == null
    {
      this.task := task;
      prev := null;
    }
  }

  /** Adding at the rear, and what one pull takes, leaves and posts. */
  function Pushed(q: seq<Task>, task: Task): seq<Task> {
    q + [task]
  }

  function Pulled(q: seq<Task>): seq<Task> {
    if q == [] then [] else q[1..]
  }

  /** A pull posts the semaphore again exactly when it leaves jobs behind. */
  predicate Reposts(q: seq<Task>) {
    Pulled(q) != []
  }

  /** struct jobqueue, with the value of its binary semaphore. */
  class JobQueue {
    var front: Job?
    var rear: Job?
    var len: int
    var hasJobs: int
    ghost var jobs: seq<Job>

    ghost predicate Valid()
      reads this, (set j: Job | j in jobs)`prev
    {
      && len == |jobs|
      && front == (if jobs == [] then null else jobs[0])
      && rear == (if jobs == [] then null else jobs[|jobs| - 1])
      && (forall i {:trigger jobs[i].prev} | 0 <= i < |jobs| ::
            jobs[i].prev == if i + 1 < |jobs| then jobs[i + 1] else null)
      && (forall i, j | 0 <= i < j < |jobs| :: jobs[i] != jobs[j])
      && 0 <= hasJobs <= 1
    }

    /** The jobs in the order in which they will be pulled. */
    ghost function Tasks(): seq<Task>
      reads this
    {
      seq(|jobs|, i requires 0 <= i < |jobs| reads this => jobs[i].task)
    }

    /** jobqueue_init. */
    constructor ()
      ensures Valid() && Tasks() == [] && hasJobs == 0
    {
      front, rear, len, hasJobs, jobs := null, null, 0, 0, [];
    }

    /** jobqueue_push. */
    method Push(newjob: Job)
      requires Valid() && newjob !in jobs && len < INT_MAX
      modifies this, newjob`prev, (set j: Job | j in jobs)`prev
      ensures Valid() && jobs == old(jobs) + [newjob]
      ensures Tasks() == Pushed(old(Tasks()), newjob.task) && hasJobs == 1
    {
      newjob.prev := null;
      if len == 0 {
        front, rear := newjob, newjob;
      } else {
        rear.prev := newjob;
        rear := newjob;
      }
      len := len + 1;
      hasJobs := 1;
      jobs := jobs + [newjob];
    }

    /** jobqueue_pull. */
    method Pull() returns (job: Job?)
      requires Valid()
      modifies this
      ensures Valid() && jobs == if old(jobs) == [] then [] else old(jobs)[1..]
      ensures job == if old(jobs) == [] then null else old(jobs)[0]
      ensures Tasks() == Pulled(old(Tasks()))
      ensures hasJobs == if Reposts(old(Tasks())) then 1 else old(hasJobs)
    {
      job := front;
      if len == 0 {
        return;
      }
      if len == 1 {
        front, rear, len := null, null, 0;
      } else {
        front := job.prev;
        len := len - 1;
        hasJobs := 1;
      }
      jobs := jobs[1..];
    }

    /** jobqueue_clear. */
    method Clear()
      requires Valid()
      modifies this
      ensures Valid() && Tasks() == [] && hasJobs == 0
    {
      while len != 0
        invariant Valid()
        decreases len
      {
        var _ := Pull();
      }
      front, rear, hasJobs, len := null, null, 0, 0;
    }
  }
}
