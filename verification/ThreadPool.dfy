/**
 * The thread pool as an interleaving of workers and client threads. A step is one critical
 * section of the semaphore's mutex, or what a thread does to shared data between two lock
 * operations; every other thread may step in between.
 */
module ThreadPool {
  import opened JobQueues
  import opened Options

  /** Where a thread of thread_do stands. */
  datatype Worker =
    | Testing                      // in bsem_wait, before the test of the semaphore
    | Asleep                       // in bsem_wait, blocked on the condition variable
    | Awake                        // past bsem_wait, before num_threads_working is raised
    | Counted                      // before jobqueue_pull locks rwmutex
    | Pulling                      // holds rwmutex
    | Posting(task: Task)          // holds rwmutex, before the bsem_post of jobqueue_pull
    | Leaving(held: Option<Task>)  // holds rwmutex, before it unlocks
    | Running(held: Option<Task>)  // before the job has run
    | Finishing                    // before num_threads_working is lowered

  /** Where a caller of the pool stands; 'n' counts the jobs queued before thpool_wait was called. */
  datatype Client =
    | Free
    | Adding(task: Task)           // in jobqueue_push, before it locks rwmutex
    | Locked(task: Task)           // holds rwmutex
    | Linked                       // holds rwmutex, before the bsem_post of jobqueue_push
    | Unlocking                    // holds rwmutex
    | Entering(n: nat)             // in thpool_wait, before it locks thcount_lock
    | Reading(n: nat)              // holds thcount_lock, before it reads the queue's length
    | Comparing(n: nat)            // holds thcount_lock, has read length 0
    | Sleeping(n: nat)             // blocked on threads_all_idle

  datatype Holder = NoOne | ByWorker(i: nat) | ByClient(j: nat)

  /**
   * The pool; 'added', 'pulled' and 'done' log the jobs in the order in which they were queued,
   * taken out and finished.
   */
  datatype State = State(
    queue: seq<Task>, v: int, rw: Holder, count: Holder, working: int,
    workers: seq<Worker>, clients: seq<Client>,
    added: seq<Task>, pulled: seq<Task>, done: seq<Task>)

  /** 'pick' is the thread a signal wakes; the last two are wakeups without a signal. */
  datatype Label =
    | WorkerStep(i: nat, pick: nat)
    | ClientStep(j: nat, pick: nat)
    | CallAdd(j: nat, task: Task)
    | CallWait(j: nat)
    | WakeWorker(i: nat)
    | WakeClient(j: nat)

  /** A signal on the semaphore wakes one sleeping worker, if there is one. */
  predicate MayPick(workers: seq<Worker>, k: nat) {
    (k < |workers| && workers[k].Asleep?) || forall i | 0 <= i < |workers| :: !workers[i].Asleep?
  }

  function Signal(workers: seq<Worker>, k: nat): seq<Worker> {
    if k < |workers| && workers[k].Asleep? then workers[k := Testing] else workers
  }

  predicate MayPickClient(clients: seq<Client>, k: nat) {
    (k < |clients| && clients[k].Sleeping?) || forall j | 0 <= j < |clients| :: !clients[j].Sleeping?
  }

  function SignalClient(clients: seq<Client>, k: nat): seq<Client> {
    if k < |clients| && clients[k].Sleeping? then clients[k := Entering(clients[k].n)] else clients
  }

  predicate WorkerEnabled(s: State, i: nat, pick: nat) {
    && i < |s.workers|
    && match s.workers[i]
       case Asleep => false
       case Awake => s.count == NoOne
       case Counted => s.rw == NoOne
       case Posting(_) => MayPick(s.workers, pick)
       case Finishing => s.count == NoOne && (s.working == 1 ==> MayPickClient(s.clients, pick))
       case _ => true
  }

  function WorkerNext(s: State, i: nat, pick: nat): State
    requires WorkerEnabled(s, i, pick)
  {
    match s.workers[i]
    case Testing =>
      if s.v == 1 then s.(v := 0, workers := s.workers[i := Awake])
      else s.(workers := s.workers[i := Asleep])
    case Asleep => s
    case Awake => s.(working := s.working + 1, workers := s.workers[i := Counted])
    case Counted => s.(rw := ByWorker(i), workers := s.workers[i := Pulling])
    case Pulling =>
      if s.queue == [] then s.(workers := s.workers[i := Leaving(None)])
      else
        var task := s.queue[0];
        s.(queue := Pulled(s.queue), pulled := s.pulled + [task],
           workers := s.workers[i := if Reposts(s.queue) then Posting(task) else Leaving(Some(task))])
    case Posting(task) =>
      s.(v := 1, workers := Signal(s.workers[i := Leaving(Some(task))], pick))
    case Leaving(held) => s.(rw := NoOne, workers := s.workers[i := Running(held)])
    case Running(held) =>
      s.(done := if held.Some? then s.done + [held.value] else s.done, workers := s.workers[i := Finishing])
    case Finishing =>
      s.(working := s.working - 1, workers := s.workers[i := Testing],
         clients := if s.working == 1 then SignalClient(s.clients, pick) else s.clients)
  }

  predicate ClientEnabled(s: State, j: nat, pick: nat) {
    && j < |s.clients|
    && match s.clients[j]
       case Free => false
       case Adding(_) => s.rw == NoOne
       case Linked => MayPick(s.workers, pick)
       case Entering(_) => s.count == NoOne
       case Sleeping(_) => false
       case _ => true
  }

  function ClientNext(s: State, j: nat, pick: nat): State
    requires ClientEnabled(s, j, pick)
  {
    match s.clients[j]
    case Free => s
    case Adding(task) => s.(rw := ByClient(j), clients := s.clients[j := Locked(task)])
    case Locked(task) =>
      s.(queue := Pushed(s.queue, task), added := s.added + [task], clients := s.clients[j := Linked])
    case Linked =>
      s.(v := 1, workers := Signal(s.workers, pick), clients := s.clients[j := Unlocking])
    case Unlocking => s.(rw := NoOne, clients := s.clients[j := Free])
    case Entering(n) => s.(count := ByClient(j), clients := s.clients[j := Reading(n)])
    case Reading(n) =>
      if |s.queue| != 0 then s.(count := NoOne, clients := s.clients[j := Sleeping(n)])
      else s.(clients := s.clients[j := Comparing(n)])
    case Comparing(n) =>
      s.(count := NoOne, clients := s.clients[j := if s.working != 0 then Sleeping(n) else Free])
    case Sleeping(_) => s
  }

  predicate Enabled(s: State, l: Label) {
    match l
    case WorkerStep(i, pick) => WorkerEnabled(s, i, pick)
    case ClientStep(j, pick) => ClientEnabled(s, j, pick)
    case CallAdd(j, _) => j < |s.clients| && s.clients[j].Free?
    case CallWait(j) => j < |s.clients| && s.clients[j].Free?
    case WakeWorker(i) => i < |s.workers| && s.workers[i].Asleep?
    case WakeClient(j) => j < |s.clients| && s.clients[j].Sleeping?
  }

  function Next(s: State, l: Label): State
    requires Enabled(s, l)
  {
    match l
    case WorkerStep(i, pick) => WorkerNext(s, i, pick)
    case ClientStep(j, pick) => ClientNext(s, j, pick)
    case CallAdd(j, task) => s.(clients := s.clients[j := Adding(task)])
    case CallWait(j) => s.(clients := s.clients[j := Entering(|s.added|)])
    case WakeWorker(i) => s.(workers := s.workers[i := Testing])
    case WakeClient(j) => s.(clients := s.clients[j := Entering(s.clients[j].n)])
  }

  /** What thpool_init leaves, once every thread has started. */
  predicate Init(s: State) {
    && s.queue == [] && s.v == 0 && s.rw == NoOne && s.count == NoOne && s.working == 0
    && s.added == [] && s.pulled == [] && s.done == []
    && (forall i | 0 <= i < |s.workers| :: s.workers[i].Testing?)
    && (forall j | 0 <= j < |s.clients| :: s.clients[j].Free?)
  }

  /* ---------------------------------- The invariant ---------------------------------- */

  predicate HoldsRw(w: Worker) {
    w.Pulling? || w.Posting? || w.Leaving?
  }

  predicate ClientHoldsRw(c: Client) {
    c.Locked? || c.Linked? || c.Unlocking?
  }

  predicate HoldsCount(c: Client) {
    c.Reading? || c.Comparing?
  }

  predicate IsCounted(w: Worker) {
    w.Counted? || HoldsRw(w) || w.Running? || w.Finishing?
  }

  ghost predicate RwOfWorkers(ws: seq<Worker>, rw: Holder) {
    && (forall i | 0 <= i < |ws| :: HoldsRw(ws[i]) <==> rw == ByWorker(i))
    && (rw.ByWorker? ==> rw.i < |ws|)
  }

  ghost predicate RwOfClients(cs: seq<Client>, rw: Holder) {
    && (forall j | 0 <= j < |cs| :: ClientHoldsRw(cs[j]) <==> rw == ByClient(j))
    && (rw.ByClient? ==> rw.j < |cs|)
  }

  ghost predicate CountOfClients(cs: seq<Client>, count: Holder) {
    && (forall j | 0 <= j < |cs| :: HoldsCount(cs[j]) <==> count == ByClient(j))
    && !count.ByWorker? && (count.ByClient? ==> count.j < |cs|)
  }

  /** Each mutex is held by exactly the thread it says. */
  ghost predicate Locks(s: State) {
    RwOfWorkers(s.workers, s.rw) && RwOfClients(s.clients, s.rw) && CountOfClients(s.clients, s.count)
  }

  ghost function CountedIn(ws: seq<Worker>): nat {
    if ws == [] then 0 else (if IsCounted(ws[0]) then 1 else 0) + CountedIn(ws[1..])
  }

  /** The jobs a worker has taken and not finished. */
  ghost function Of(w: Worker): multiset<Task> {
    match w
    case Posting(task) => multiset{task}
    case Leaving(Some(task)) => multiset{task}
    case Running(Some(task)) => multiset{task}
    case _ => multiset{}
  }

  ghost function HeldIn(ws: seq<Worker>): multiset<Task> {
    if ws == [] then multiset{} else Of(ws[0]) + HeldIn(ws[1..])
  }

  /** Jobs leave in the order in which they came, and each is queued, or held by one worker, or done. */
  ghost predicate Jobs(s: State) {
    && s.added == s.pulled + s.queue
    && multiset(s.pulled) == HeldIn(s.workers) + multiset(s.done)
    && s.working == CountedIn(s.workers)
  }

  ghost predicate IsPosting(s: State) {
    || (exists i | 0 <= i < |s.workers| :: s.workers[i].Posting?)
    || (exists j | 0 <= j < |s.clients| :: s.clients[j].Linked?)
  }

  /** A worker has taken the semaphore's signal and has not looked at the queue yet. */
  ghost predicate IsComing(s: State) {
    exists i | 0 <= i < |s.workers| :: s.workers[i].Awake? || s.workers[i].Counted? || s.workers[i].Pulling?
  }

  /** No stranded job, and no lost wakeup of the workers. */
  ghost predicate Wakeups(s: State) {
    && 0 <= s.v <= 1
    && (s.queue != [] ==> s.v == 1 || IsComing(s) || IsPosting(s))
    && (s.v == 1 ==> (exists i | 0 <= i < |s.workers| :: s.workers[i].Testing?)
                     || forall i | 0 <= i < |s.workers| :: !s.workers[i].Asleep?)
  }

  /** What a thread in thpool_wait may rely on. */
  ghost predicate Waits(s: State) {
    forall j | 0 <= j < |s.clients| ::
      match s.clients[j]
      case Entering(n) => n <= |s.added|
      case Reading(n) => n <= |s.added|
      case Comparing(n) => n <= |s.pulled|
      case Sleeping(n) => n <= |s.added|
      case _ => true
  }

  ghost predicate Inv(s: State) {
    Locks(s) && Jobs(s) && Wakeups(s) && Waits(s)
  }

  lemma {:induction false} CountedUpdate(ws: seq<Worker>, i: nat, w: Worker)
    requires i < |ws|
    ensures CountedIn(ws[i := w]) == CountedIn(ws) - (if IsCounted(ws[i]) then 1 else 0) + if IsCounted(w) then 1 else 0
  {
    if i > 0 {
      assert ws[i := w][1..] == ws[1..][i - 1 := w];
      CountedUpdate(ws[1..], i - 1, w);
    } else {
      assert ws[i := w][1..] == ws[1..];
    }
  }

  lemma {:induction false} HeldUpdate(ws: seq<Worker>, i: nat, w: Worker)
    requires i < |ws|
    ensures HeldIn(ws[i := w]) + Of(ws[i]) == HeldIn(ws) + Of(w)
    ensures Of(ws[i]) == Of(w) ==> HeldIn(ws[i := w]) == HeldIn(ws)
  {
    if i > 0 {
      assert ws[i := w][1..] == ws[1..][i - 1 := w];
      HeldUpdate(ws[1..], i - 1, w);
      var rest, rest' := HeldIn(ws[1..]), HeldIn(ws[1..][i - 1 := w]);
      assert (Of(ws[0]) + rest') + Of(ws[i]) == Of(ws[0]) + (rest' + Of(ws[i])) == (Of(ws[0]) + rest) + Of(w);
    } else {
      assert ws[i := w][1..] == ws[1..];
      assert (Of(w) + HeldIn(ws[1..])) + Of(ws[0]) == (Of(ws[0]) + HeldIn(ws[1..])) + Of(w);
    }
  }

  /** Signals move sleepers only, which hold nothing and count for nothing. */
  lemma SignalFacts(ws: seq<Worker>, k: nat)
    ensures var t := Signal(ws, k);
            && |t| == |ws| && CountedIn(t) == CountedIn(ws) && HeldIn(t) == HeldIn(ws)
            && forall i | 0 <= i < |ws| :: t[i] == ws[i] || (ws[i].Asleep? && t[i].Testing?)
  {
    hide HeldIn, CountedIn;
    if k < |ws| && ws[k].Asleep? {
      CountedUpdate(ws, k, Testing);
      HeldUpdate(ws, k, Testing);
      assert Of(Asleep) == Of(Testing);
    }
  }

  /** Worker 'i' locks, unlocks, or does neither. */
  lemma WorkerRw(ws: seq<Worker>, cs: seq<Client>, rw: Holder, i: nat, w: Worker, rw': Holder)
    requires RwOfWorkers(ws, rw) && RwOfClients(cs, rw) && i < |ws|
    requires || (HoldsRw(w) == HoldsRw(ws[i]) && rw' == rw)
             || (rw == NoOne && HoldsRw(w) && rw' == ByWorker(i))
             || (HoldsRw(ws[i]) && !HoldsRw(w) && rw' == NoOne)
    ensures RwOfWorkers(ws[i := w], rw') && RwOfClients(cs, rw')
  {
  }

  lemma ClientRw(ws: seq<Worker>, cs: seq<Client>, rw: Holder, j: nat, c: Client, rw': Holder)
    requires RwOfWorkers(ws, rw) && RwOfClients(cs, rw) && j < |cs|
    requires || (ClientHoldsRw(c) == ClientHoldsRw(cs[j]) && rw' == rw)
             || (rw == NoOne && ClientHoldsRw(c) && rw' == ByClient(j))
             || (ClientHoldsRw(cs[j]) && !ClientHoldsRw(c) && rw' == NoOne)
    ensures RwOfWorkers(ws, rw') && RwOfClients(cs[j := c], rw')
  {
  }

  lemma ClientCount(cs: seq<Client>, count: Holder, j: nat, c: Client, count': Holder)
    requires CountOfClients(cs, count) && j < |cs|
    requires || (HoldsCount(c) == HoldsCount(cs[j]) && count' == count)
             || (count == NoOne && HoldsCount(c) && count' == ByClient(j))
             || (HoldsCount(cs[j]) && !HoldsCount(c) && count' == NoOne)
    ensures CountOfClients(cs[j := c], count')
  {
  }

  lemma SignalLocks(ws: seq<Worker>, cs: seq<Client>, rw: Holder, count: Holder, k: nat)
    requires RwOfWorkers(ws, rw) && RwOfClients(cs, rw) && CountOfClients(cs, count)
    ensures RwOfWorkers(Signal(ws, k), rw)
    ensures RwOfClients(SignalClient(cs, k), rw) && CountOfClients(SignalClient(cs, k), count)
  {
    if k < |cs| && cs[k].Sleeping? {
      ClientRw(ws, cs, rw, k, Entering(cs[k].n), rw);
      ClientCount(cs, count, k, Entering(cs[k].n), count);
    }
  }

  /** Where worker 'i' stands after its step, before any signal. */
  function Moved(s: State, i: nat, pick: nat): Worker
    requires WorkerEnabled(s, i, pick)
  {
    if s.workers[i].Posting? then Leaving(Some(s.workers[i].task)) else WorkerNext(s, i, pick).workers[i]
  }

  lemma WorkerLocks(s: State, i: nat, pick: nat)
    requires Locks(s) && WorkerEnabled(s, i, pick)
    ensures Locks(WorkerNext(s, i, pick))
  {
    hide RwOfClients, CountOfClients;
    var w := Moved(s, i, pick);
    var t := WorkerNext(s, i, pick);
    WorkerRw(s.workers, s.clients, s.rw, i, w, t.rw);
    SignalLocks(s.workers[i := w], s.clients, t.rw, s.count, pick);
  }

  lemma ClientLocks(s: State, j: nat, pick: nat)
    requires Locks(s) && ClientEnabled(s, j, pick)
    ensures Locks(ClientNext(s, j, pick))
  {
    hide RwOfWorkers;
    var t := ClientNext(s, j, pick);
    ClientRw(s.workers, s.clients, s.rw, j, t.clients[j], t.rw);
    ClientCount(s.clients, s.count, j, t.clients[j], t.count);
    SignalLocks(s.workers, t.clients, t.rw, t.count, pick);
  }

  lemma LocksKept(s: State, l: Label)
    requires Locks(s) && Enabled(s, l)
    ensures Locks(Next(s, l))
  {
    hide WorkerNext, WorkerEnabled, ClientNext, ClientEnabled;
    match l {
      case WorkerStep(i, pick) => WorkerLocks(s, i, pick);
      case ClientStep(j, pick) => ClientLocks(s, j, pick);
      case _ =>
    }
  }

  lemma WaitsKept(s: State, l: Label)
    requires Jobs(s) && Waits(s) && Enabled(s, l)
    ensures Waits(Next(s, l))
  {
    hide HeldIn, CountedIn;
    var t := Next(s, l);
    assert |s.added| <= |t.added| && |s.pulled| <= |t.pulled| && |t.clients| == |s.clients|;
    forall j | 0 <= j < |t.clients| ensures
      match t.clients[j]
      case Entering(n) => n <= |t.added|
      case Reading(n) => n <= |t.added|
      case Comparing(n) => n <= |t.pulled|
      case Sleeping(n) => n <= |t.added|
      case _ => true
    {
      if t.clients[j] != s.clients[j] {
        ClientMoved(s, l, j);
      }
    }
  }

  lemma ClientMoved(s: State, l: Label, j: nat)
    requires Jobs(s) && Enabled(s, l) && j < |s.clients| && Next(s, l).clients[j] != s.clients[j]
    ensures var c, d := s.clients[j], Next(s, l).clients[j];
            match d
            case Entering(n) => c == Sleeping(n) || (c == Free && n == |s.added|)
            case Reading(n) => c == Entering(n)
            case Comparing(n) => c == Reading(n) && |s.pulled| == |s.added|
            case Sleeping(n) => c == Reading(n) || c == Comparing(n)
            case _ => true
  {
    hide HeldIn, CountedIn;
  }

  /** What one move of worker 'i' does to the jobs held. */
  lemma HeldMoved(s: State, i: nat, pick: nat)
    requires Jobs(s) && WorkerEnabled(s, i, pick)
    ensures var t := WorkerNext(s, i, pick);
            && HeldIn(t.workers) + Of(s.workers[i]) == HeldIn(s.workers) + Of(Moved(s, i, pick))
            && CountedIn(t.workers) == t.working
  {
    hide HeldIn, CountedIn, MayPick, MayPickClient;
    var w := Moved(s, i, pick);
    CountedUpdate(s.workers, i, w);
    HeldUpdate(s.workers, i, w);
    SignalFacts(s.workers[i := w], pick);
  }

  lemma Cancel(a: multiset<Task>, b: multiset<Task>, x: multiset<Task>)
    requires a + x == b + x
    ensures a == b
  {
    forall e ensures a[e] == b[e] {
      assert (a + x)[e] == (b + x)[e];
    }
  }

  /** What one move of worker 'i' does to the queue and the logs. */
  lemma LogsMoved(s: State, i: nat, pick: nat)
    requires WorkerEnabled(s, i, pick)
    ensures var t, w := WorkerNext(s, i, pick), s.workers[i];
            && t.added == s.added
            && (if w.Pulling? && s.queue != [] then t.queue == s.queue[1..] && t.pulled == s.pulled + [s.queue[0]]
                else t.queue == s.queue && t.pulled == s.pulled)
            && t.done == if w.Running? && w.held.Some? then s.done + [w.held.value] else s.done
  {
    hide Signal, SignalClient, MayPick, MayPickClient;
  }

  lemma HoldingMoved(s: State, i: nat, pick: nat)
    requires WorkerEnabled(s, i, pick)
    ensures var w, w' := s.workers[i], Moved(s, i, pick);
            if w.Pulling? && s.queue != [] then Of(w) == multiset{} && Of(w') == multiset{s.queue[0]}
            else if w.Running? && w.held.Some? then Of(w) == multiset{w.held.value} && Of(w') == multiset{}
            else Of(w) == Of(w')
  {
    hide Signal, SignalClient, MayPick, MayPickClient;
  }

  lemma WorkerJobs(s: State, i: nat, pick: nat)
    requires Jobs(s) && WorkerEnabled(s, i, pick)
    ensures Jobs(WorkerNext(s, i, pick))
  {
    hide HeldIn, CountedIn, MayPick, MayPickClient, WorkerNext, Moved, Of;
    HeldMoved(s, i, pick);
    LogsMoved(s, i, pick);
    HoldingMoved(s, i, pick);
    var t := WorkerNext(s, i, pick);
    var before, after := HeldIn(s.workers), HeldIn(t.workers);
    if s.workers[i].Pulling? && s.queue != [] {
      PullBalance(s.pulled, s.queue, before, after, multiset(s.done));
    } else if s.workers[i].Running? && s.workers[i].held.Some? {
      RunBalance(multiset(s.pulled), before, after, s.done, s.workers[i].held.value);
    } else {
      Cancel(after, before, Of(s.workers[i]));
    }
  }

  lemma PullBalance(pulled: seq<Task>, queue: seq<Task>, before: multiset<Task>, after: multiset<Task>,
                    done: multiset<Task>)
    requires queue != [] && after + multiset{} == before + multiset{queue[0]} && multiset(pulled) == before + done
    ensures pulled + queue == (pulled + [queue[0]]) + queue[1..]
    ensures multiset(pulled + [queue[0]]) == after + done
  {
    assert pulled + queue == (pulled + [queue[0]]) + queue[1..];
    assert after == before + multiset{queue[0]};
    assert (before + done) + multiset{queue[0]} == (before + multiset{queue[0]}) + done;
  }

  lemma RunBalance(pulled: multiset<Task>, before: multiset<Task>, after: multiset<Task>, done: seq<Task>, task: Task)
    requires after + multiset{task} == before + multiset{} && pulled == before + multiset(done)
    ensures pulled == after + multiset(done + [task])
  {
    assert before == after + multiset{task};
    assert (after + multiset{task}) + multiset(done) == after + (multiset(done) + multiset{task});
  }

  lemma JobsKept(s: State, l: Label)
    requires Jobs(s) && Enabled(s, l)
    ensures Jobs(Next(s, l))
  {
    hide HeldIn, CountedIn, MayPick, MayPickClient, WorkerNext, WorkerEnabled;
    match l {
      case WorkerStep(i, pick) => WorkerJobs(s, i, pick);
      case WakeWorker(i) => SignalFacts(s.workers, i);
      case ClientStep(j, pick) =>
        SignalFacts(s.workers, pick);
        if s.clients[j].Locked? {
          assert s.added + [s.clients[j].task] == s.pulled + (s.queue + [s.clients[j].task]);
        }
      case _ =>
    }
  }

  lemma QueueWatched(s: State, l: Label)
    requires Wakeups(s) && Enabled(s, l)
    ensures var t := Next(s, l); t.queue != [] ==> t.v == 1 || IsComing(t) || IsPosting(t)
  {
    var t := Next(s, l);
    if t.queue != [] && t.v != 1 {
      if s.v == 1 {
        assert t.workers[l.i].Awake?;
      } else if s.queue == [] {
        assert t.clients[l.j].Linked?;
      } else if IsComing(s) {
        var k :| 0 <= k < |s.workers| && (s.workers[k].Awake? || s.workers[k].Counted? || s.workers[k].Pulling?);
        assert t.workers[k] == s.workers[k] || t.workers[k].Counted? || t.workers[k].Pulling? || t.workers[k].Posting?;
      } else if j :| 0 <= j < |s.clients| && s.clients[j].Linked? {
        assert t.clients[j].Linked?;
      } else {
        var k :| 0 <= k < |s.workers| && s.workers[k].Posting?;
        assert t.workers[k].Posting?;
      }
    }
  }

  lemma SignalSeen(s: State, l: Label)
    requires Wakeups(s) && Enabled(s, l)
    ensures var t := Next(s, l);
            t.v == 1 ==> (exists i | 0 <= i < |t.workers| :: t.workers[i].Testing?)
                         || forall i | 0 <= i < |t.workers| :: !t.workers[i].Asleep?
  {
    var t := Next(s, l);
    if t.v == 1 {
      if (l.WorkerStep? && s.workers[l.i].Posting?) || (l.ClientStep? && s.clients[l.j].Linked?) {
        if l.pick < |s.workers| && s.workers[l.pick].Asleep? {
          assert t.workers[l.pick].Testing?;
        }
      } else if k :| 0 <= k < |s.workers| && s.workers[k].Testing? {
        assert t.workers[k].Testing?;
      }
    }
  }

  lemma WakeupsKept(s: State, l: Label)
    requires Wakeups(s) && Enabled(s, l)
    ensures Wakeups(Next(s, l))
  {
    QueueWatched(s, l);
    SignalSeen(s, l);
    assert 0 <= Next(s, l).v <= 1;
  }

  lemma InvKept(s: State, l: Label)
    requires Inv(s) && Enabled(s, l)
    ensures Inv(Next(s, l))
  {
    LocksKept(s, l);
    JobsKept(s, l);
    WakeupsKept(s, l);
    WaitsKept(s, l);
  }

  /* ---------------------------------- Whole runs ---------------------------------- */

  /** A run: 'ss' are the states the labels lead through. */
  ghost predicate Run(ss: seq<State>, ls: seq<Label>) {
    && |ss| == |ls| + 1 && Init(ss[0])
    && forall k | 0 <= k < |ls| :: Enabled(ss[k], ls[k]) && ss[k + 1] == Next(ss[k], ls[k])
  }

  lemma {:induction false} NothingCounted(ws: seq<Worker>)
    requires forall i | 0 <= i < |ws| :: !IsCounted(ws[i])
    ensures CountedIn(ws) == 0 && HeldIn(ws) == multiset{}
  {
    if ws != [] {
      NothingCounted(ws[1..]);
    }
  }

  lemma InitInv(s: State)
    requires Init(s)
    ensures Inv(s)
  {
    NothingCounted(s.workers);
  }

  /** Every state of every run satisfies the invariant. */
  lemma {:induction false} Always(ss: seq<State>, ls: seq<Label>, k: nat)
    requires Run(ss, ls) && k < |ss|
    ensures Inv(ss[k])
  {
    hide Inv, Enabled, Next, Init;
    if k == 0 {
      InitInv(ss[0]);
    } else {
      Always(ss, ls, k - 1);
      InvKept(ss[k - 1], ls[k - 1]);
    }
  }

  /** The jobs of a run leave the queue in the order in which they were put in. */
  lemma PulledInOrder(ss: seq<State>, ls: seq<Label>, k: nat)
    requires Run(ss, ls) && k < |ss|
    ensures ss[k].added == ss[k].pulled + ss[k].queue
    ensures multiset(ss[k].added) == multiset(ss[k].queue) + HeldIn(ss[k].workers) + multiset(ss[k].done)
  {
    hide Run, HeldIn, CountedIn;
    Always(ss, ls, k);
  }

  lemma {:induction false} NoneHeld(ws: seq<Worker>)
    requires CountedIn(ws) == 0
    ensures HeldIn(ws) == multiset{} && forall i | 0 <= i < |ws| :: !IsCounted(ws[i])
  {
    if ws != [] {
      NoneHeld(ws[1..]);
      forall i | 0 <= i < |ws| ensures !IsCounted(ws[i]) {
        assert i > 0 ==> ws[i] == ws[1..][i - 1];
      }
    }
  }

  /** thpool_wait returns only when every job queued before the call has finished. */
  lemma WaitReturns(s: State, j: nat, pick: nat)
    requires Inv(s) && ClientEnabled(s, j, pick) && s.clients[j].Comparing?
    requires ClientNext(s, j, pick).clients[j].Free?
    ensures var n := s.clients[j].n; n <= |s.added| && multiset(s.added[..n]) <= multiset(s.done)
  {
    var n := s.clients[j].n;
    NoneHeld(s.workers);
    assert multiset(s.pulled) == multiset(s.done);
    assert s.added[..n] == s.pulled[..n];
    assert s.pulled == s.pulled[..n] + s.pulled[n..];
    assert multiset(s.pulled) == multiset(s.pulled[..n]) + multiset(s.pulled[n..]);
  }

  /**
   * No stranded job: with jobs queued and rwmutex free, the semaphore is up or a worker that
   * has taken it has not looked at the queue yet.
   */
  lemma NoStrandedJob(s: State)
    requires Inv(s) && s.queue != [] && s.rw == NoOne
    ensures s.v == 1 || exists i | 0 <= i < |s.workers| :: s.workers[i].Awake? || s.workers[i].Counted?
  {
    assert forall i | 0 <= i < |s.workers| :: !HoldsRw(s.workers[i]);
    assert forall j | 0 <= j < |s.clients| :: !ClientHoldsRw(s.clients[j]);
  }

  /* ------------------------------ Progress and the end of a run ------------------------------ */

  /** Steps that threads take by themselves: no new call, and no wakeup without a signal. */
  predicate Internal(l: Label) {
    l.WorkerStep? || l.ClientStep?
  }

  ghost predicate Quiescent(s: State) {
    forall l | Internal(l) :: !Enabled(s, l)
  }

  lemma SomePick(ws: seq<Worker>, cs: seq<Client>) returns (k: nat, m: nat)
    ensures MayPick(ws, k) && MayPickClient(cs, m)
  {
    k, m := 0, 0;
    if i :| 0 <= i < |ws| && ws[i].Asleep? {
      k := i;
    }
    if j :| 0 <= j < |cs| && cs[j].Sleeping? {
      m := j;
    }
  }

  /** A thread that holds a mutex can go on. */
  lemma HoldersGoOn(s: State)
    requires Locks(s) && (s.rw != NoOne || s.count != NoOne)
    ensures exists l :: Internal(l) && Enabled(s, l)
  {
    var k, m := SomePick(s.workers, s.clients);
    var l := match s.rw
      case ByWorker(i) => WorkerStep(i, k)
      case ByClient(j) => ClientStep(j, k)
      case NoOne => ClientStep(s.count.j, k);
    assert Internal(l) && Enabled(s, l);
  }

  /**
   * No deadlock: when no thread can step, every worker sleeps, every caller is out of the pool or
   * asleep in thpool_wait, and every job has been done, once.
   */
  lemma QuiescentDone(s: State)
    requires Inv(s) && Quiescent(s) && s.workers != []
    ensures forall i | 0 <= i < |s.workers| :: s.workers[i].Asleep?
    ensures forall j | 0 <= j < |s.clients| :: s.clients[j].Free? || s.clients[j].Sleeping?
    ensures s.queue == [] && s.working == 0 && multiset(s.added) == multiset(s.done)
  {
    hide HeldIn, CountedIn;
    if s.rw != NoOne || s.count != NoOne {
      HoldersGoOn(s);
    }
    var k, m := SomePick(s.workers, s.clients);
    forall i | 0 <= i < |s.workers| ensures s.workers[i].Asleep? {
      assert !Enabled(s, WorkerStep(i, if s.workers[i].Finishing? then m else k));
    }
    forall j | 0 <= j < |s.clients| ensures s.clients[j].Free? || s.clients[j].Sleeping? {
      assert !Enabled(s, ClientStep(j, k));
    }
    NothingCounted(s.workers);
    assert s.workers[0].Asleep?;
  }

  /* Weights that every internal step lowers: how much work is left. */

  function WorkerWeight(w: Worker): nat {
    match w
    case Asleep => 0
    case Testing => 1
    case Finishing => 5
    case Running(_) => 6
    case Leaving(_) => 7
    case Pulling => 8
    case Counted => 9
    case Awake => 10
    case Posting(_) => 19
  }

  function ClientWeight(c: Client): nat {
    match c
    case Free => 0
    case Sleeping(_) => 0
    case Comparing(_) => 1
    case Reading(_) => 2
    case Entering(_) => 3
    case Unlocking => 1
    case Linked => 13
    case Locked(_) => 26
    case Adding(_) => 27
  }

  ghost function WorkersWeight(ws: seq<Worker>): nat {
    if ws == [] then 0 else WorkerWeight(ws[0]) + WorkersWeight(ws[1..])
  }

  ghost function ClientsWeight(cs: seq<Client>): nat {
    if cs == [] then 0 else ClientWeight(cs[0]) + ClientsWeight(cs[1..])
  }

  ghost function Work(s: State): nat {
    12 * |s.queue| + (if s.v > 0 then 10 else 0) + WorkersWeight(s.workers) + ClientsWeight(s.clients)
  }

  lemma {:induction false} WorkersWeightUpdate(ws: seq<Worker>, i: nat, w: Worker)
    requires i < |ws|
    ensures WorkersWeight(ws[i := w]) == WorkersWeight(ws) - WorkerWeight(ws[i]) + WorkerWeight(w)
  {
    if i > 0 {
      assert ws[i := w][1..] == ws[1..][i - 1 := w];
      WorkersWeightUpdate(ws[1..], i - 1, w);
    } else {
      assert ws[i := w][1..] == ws[1..];
    }
  }

  lemma {:induction false} ClientsWeightUpdate(cs: seq<Client>, j: nat, c: Client)
    requires j < |cs|
    ensures ClientsWeight(cs[j := c]) == ClientsWeight(cs) - ClientWeight(cs[j]) + ClientWeight(c)
  {
    if j > 0 {
      assert cs[j := c][1..] == cs[1..][j - 1 := c];
      ClientsWeightUpdate(cs[1..], j - 1, c);
    } else {
      assert cs[j := c][1..] == cs[1..];
    }
  }

  lemma SignalWeights(ws: seq<Worker>, cs: seq<Client>, k: nat)
    ensures WorkersWeight(Signal(ws, k)) <= WorkersWeight(ws) + 1
    ensures ClientsWeight(SignalClient(cs, k)) <= ClientsWeight(cs) + 3
  {
    if k < |ws| {
      WorkersWeightUpdate(ws, k, Testing);
    }
    if k < |cs| && cs[k].Sleeping? {
      ClientsWeightUpdate(cs, k, Entering(cs[k].n));
    }
  }

  lemma WorkerWorks(s: State, i: nat, pick: nat)
    requires 0 <= s.v <= 1 && WorkerEnabled(s, i, pick)
    ensures 0 <= WorkerNext(s, i, pick).v <= 1 && Work(WorkerNext(s, i, pick)) < Work(s)
  {
    hide WorkersWeight, ClientsWeight, MayPick, MayPickClient;
    var w := Moved(s, i, pick);
    WorkersWeightUpdate(s.workers, i, w);
    SignalWeights(s.workers[i := w], s.clients, pick);
  }

  lemma ClientWorks(s: State, j: nat, pick: nat)
    requires 0 <= s.v <= 1 && ClientEnabled(s, j, pick)
    ensures 0 <= ClientNext(s, j, pick).v <= 1 && Work(ClientNext(s, j, pick)) < Work(s)
  {
    hide WorkersWeight, ClientsWeight, MayPick;
    ClientsWeightUpdate(s.clients, j, ClientNext(s, j, pick).clients[j]);
    SignalWeights(s.workers, s.clients, pick);
  }

  /** The steps 'ls' of the threads themselves, one after the other from 's' on. */
  ghost predicate InternalRun(s: State, ls: seq<Label>, t: State)
    decreases |ls|
  {
    if ls == [] then s == t
    else Internal(ls[0]) && Enabled(s, ls[0]) && InternalRun(Next(s, ls[0]), ls[1..], t)
  }

  /** Without new calls the threads come to rest, whatever the schedule: 'Work' bounds the steps left. */
  lemma {:induction false} RunsEnd(s: State, ls: seq<Label>, t: State)
    requires Inv(s) && InternalRun(s, ls, t)
    ensures Inv(t) && |ls| + Work(t) <= Work(s)
    decreases |ls|
  {
    hide Inv, Work, Next, Enabled;
    if ls != [] {
      var l := ls[0];
      InvKept(s, l);
      StepWorks(s, l);
      RunsEnd(Next(s, l), ls[1..], t);
    }
  }

  lemma SemaphoreRange(s: State)
    requires Inv(s)
    ensures 0 <= s.v <= 1
  {
  }

  lemma StepWorks(s: State, l: Label)
    requires Inv(s) && Internal(l) && Enabled(s, l)
    ensures Inv(Next(s, l)) && Work(Next(s, l)) < Work(s)
  {
    SemaphoreRange(s);
    hide Work, WorkerNext, ClientNext, Wakeups;
    InvKept(s, l);
    match l {
      case WorkerStep(i, pick) => WorkerWorks(s, i, pick);
      case ClientStep(j, pick) => ClientWorks(s, j, pick);
    }
  }

  predicate InWait(c: Client) {
    c.Entering? || c.Reading? || c.Comparing? || c.Sleeping?
  }

  ghost predicate OneWaiter(s: State) {
    forall j, k | 0 <= j < |s.clients| && 0 <= k < |s.clients| && InWait(s.clients[j]) && InWait(s.clients[k]) :: j == k
  }

  /** Whoever sleeps in thpool_wait still has a signal to come. */
  ghost predicate Watched(s: State) {
    forall j | 0 <= j < |s.clients| && s.clients[j].Sleeping? :: s.queue != [] || s.working > 0
  }

  lemma {:induction false} CountedAt(ws: seq<Worker>, i: nat)
    requires i < |ws| && IsCounted(ws[i])
    ensures CountedIn(ws) > 0
  {
    if i > 0 {
      CountedAt(ws[1..], i - 1);
    }
  }

  lemma WatchedKept(s: State, l: Label)
    requires Inv(s) && Enabled(s, l) && OneWaiter(s) && Watched(s)
    ensures Watched(Next(s, l))
  {
    hide HeldIn, CountedIn, Wakeups, Waits, Locks, MayPick;
    InvKept(s, l);
    var t := Next(s, l);
    if l.WorkerStep? && IsCounted(t.workers[l.i]) {
      CountedAt(t.workers, l.i);
    }
  }

  /** Only thpool_wait's callers are left when all is quiet, and none if at most one called at a time. */
  lemma {:induction false} WaiterWoken(ss: seq<State>, ls: seq<Label>, k: nat)
    requires Run(ss, ls) && k < |ss| && forall m | 0 <= m < k :: OneWaiter(ss[m])
    ensures Watched(ss[k])
    ensures Quiescent(ss[k]) && ss[k].workers != [] ==> forall j | 0 <= j < |ss[k].clients| :: ss[k].clients[j].Free?
  {
    hide Inv, Enabled, Next, Quiescent, OneWaiter;
    Always(ss, ls, k);
    if k > 0 {
      WaiterWoken(ss, ls, k - 1);
      Always(ss, ls, k - 1);
      WatchedKept(ss[k - 1], ls[k - 1]);
    }
    if Quiescent(ss[k]) && ss[k].workers != [] {
      QuiescentDone(ss[k]);
    }
  }

  /** From every state of a run some schedule brings the threads to rest. */
  lemma {:induction false} ReachesRest(s: State) returns (ls: seq<Label>, t: State)
    requires Inv(s)
    ensures InternalRun(s, ls, t) && Inv(t) && Quiescent(t)
    decreases Work(s)
  {
    hide Inv, Work, Next, Enabled;
    if Quiescent(s) {
      ls, t := [], s;
    } else {
      var l :| Internal(l) && Enabled(s, l);
      StepWorks(s, l);
      ls, t := ReachesRest(Next(s, l));
      ls := [l] + ls;
    }
  }

  /** Some run leads to 's'. */
  ghost predicate Reachable(s: State) {
    exists ss, ls :: Run(ss, ls) && ss[|ls|] == s
  }

  /** A step on from a reachable state. */
  lemma Step(s: State, l: Label) returns (t: State)
    requires Reachable(s) && Enabled(s, l)
    ensures Reachable(t) && t == Next(s, l)
  {
    hide Enabled, Next, Init;
    t := Next(s, l);
    var ss, ls :| Run(ss, ls) && ss[|ls|] == s;
    assert Run(ss + [t], ls + [l]) && (ss + [t])[|ls + [l]|] == t;
  }

  lemma AddsJob(s: State, task: Task) returns (t: State)
    requires Reachable(s) && s.rw == NoOne && s.queue == []
    requires s.clients != [] && s.clients[0] == Free && MayPick(s.workers, 0)
    ensures Reachable(t)
    ensures t == s.(queue := [task], v := 1, added := s.added + [task], workers := Signal(s.workers, 0))
  {
    hide Reachable, MayPick, Signal;
    t := Step(s, CallAdd(0, task));
    t := Step(t, ClientStep(0, 0));
    t := Step(t, ClientStep(0, 0));
    t := Step(t, ClientStep(0, 0));
    t := Step(t, ClientStep(0, 0));
    assert t.clients == s.clients;
  }

  /** Caller 'j' of thpool_wait finds the queue not empty, and goes to sleep. */
  lemma CallerSleeps(s: State, j: nat) returns (t: State)
    requires Reachable(s) && s.count == NoOne && s.queue != [] && j < |s.clients| && s.clients[j] == Free
    ensures Reachable(t) && t == s.(clients := s.clients[j := Sleeping(|s.added|)])
  {
    hide Reachable;
    t := Step(s, CallWait(j));
    t := Step(t, ClientStep(j, 0));
    t := Step(t, ClientStep(j, 0));
    assert t.clients == s.clients[j := Sleeping(|s.added|)];
  }

  /** Worker 0 does the only job, wakes caller 0 and goes to sleep. */
  lemma WorkerServes(s: State, task: Task) returns (t: State)
    requires Reachable(s) && s.rw == s.count == NoOne && s.v == 1 && s.working == 0 && s.queue == [task]
    requires s.workers != [] && s.workers[0] == Testing && s.clients != [] && s.clients[0].Sleeping?
    ensures Reachable(t)
    ensures t == s.(queue := [], v := 0, workers := s.workers[0 := Asleep],
                    clients := s.clients[0 := Entering(s.clients[0].n)],
                    pulled := s.pulled + [task], done := s.done + [task])
  {
    hide Reachable;
    t := Step(s, WorkerStep(0, 0));
    t := Step(t, WorkerStep(0, 0));
    t := Step(t, WorkerStep(0, 0));
    t := Step(t, WorkerStep(0, 0));
    assert t.workers == s.workers[0 := Leaving(Some(task))];
    assert t == s.(queue := [], v := 0, rw := ByWorker(0), working := 1, pulled := s.pulled + [task],
                   workers := s.workers[0 := Leaving(Some(task))]);
    t := Step(t, WorkerStep(0, 0));
    t := Step(t, WorkerStep(0, 0));
    t := Step(t, WorkerStep(0, 0));
    t := Step(t, WorkerStep(0, 0));
    assert t.workers == s.workers[0 := Asleep];
  }

  /** Caller 0 finds nothing queued and nobody working, and returns. */
  lemma CallerLeaves(s: State) returns (t: State)
    requires Reachable(s) && s.count == NoOne && s.queue == [] && s.working == 0
    requires s.clients != [] && s.clients[0].Entering?
    ensures Reachable(t) && t == s.(clients := s.clients[0 := Free])
  {
    hide Reachable;
    t := Step(s, ClientStep(0, 0));
    t := Step(t, ClientStep(0, 0));
    t := Step(t, ClientStep(0, 0));
    assert t.clients == s.clients[0 := Free];
  }

  /** A pool of 'w' workers of which the first 'k' sleep, and 'c' callers who have not called. */
  function Idle(w: nat, c: nat, k: nat): State {
    State([], 0, NoOne, NoOne, 0, seq(w, i => if i < k then Asleep else Testing), seq(c, _ => Free), [], [], [])
  }

  lemma {:induction false} FallAsleep(w: nat, c: nat, k: nat)
    requires k <= w
    ensures Reachable(Idle(w, c, k))
  {
    if k == 0 {
      assert Run([Idle(w, c, 0)], []);
    } else {
      FallAsleep(w, c, k - 1);
      assert Idle(w, c, k - 1).workers[k - 1 := Asleep] == Idle(w, c, k).workers;
      var _ := Step(Idle(w, c, k - 1), WorkerStep(k - 1, 0));
    }
  }

  /** No thread can step any more, and caller 'j' of thpool_wait sleeps. */
  ghost predicate StuckAt(s: State, j: nat) {
    Quiescent(s) && j < |s.clients| && s.clients[j].Sleeping?
  }

  lemma AllAtRest(s: State)
    requires forall i | 0 <= i < |s.workers| :: s.workers[i].Asleep?
    requires forall j | 0 <= j < |s.clients| :: s.clients[j].Free? || s.clients[j].Sleeping?
    ensures Quiescent(s)
  {
  }

  /**
   * With two callers in thpool_wait at once the promise fails, whatever the pool: the one signal
   * wakes one of them, and the other sleeps on although every job is done and nothing is left that
   * would wake it.
   */
  lemma SecondWaiterStuck(w: nat, c: nat, task: Task) returns (s: State)
    requires w > 0 && c > 1
    ensures Reachable(s) && |s.workers| == w && |s.clients| == c
    ensures StuckAt(s, 1) && s.queue == [] && s.done == s.added == [task]
  {
    hide Reachable, Quiescent;
    FallAsleep(w, c, w);
    s := AddsJob(Idle(w, c, w), task);
    s := CallerSleeps(s, 0);
    s := CallerSleeps(s, 1);
    s := WorkerServes(s, task);
    s := CallerLeaves(s);
    AllAtRest(s);
  }

  /** Without workers a single caller sleeps for ever behind a job. */
  lemma NoWorkersStuck(c: nat, task: Task) returns (s: State)
    requires c > 0
    ensures Reachable(s) && |s.workers| == 0 && |s.clients| == c && StuckAt(s, 0)
  {
    hide Reachable, Quiescent;
    FallAsleep(0, c, 0);
    s := AddsJob(Idle(0, c, 0), task);
    s := CallerSleeps(s, 0);
    AllAtRest(s);
  }

  lemma {:induction false} SizesKept(ss: seq<State>, ls: seq<Label>, k: nat)
    requires Run(ss, ls) && k < |ss|
    ensures |ss[k].workers| == |ss[0].workers| && |ss[k].clients| == |ss[0].clients|
  {
    if k > 0 {
      SizesKept(ss, ls, k - 1);
      assert ss[k] == Next(ss[k - 1], ls[k - 1]);
    }
  }

  lemma OneCallerWoken(s: State, j: nat)
    requires Reachable(s) && (|s.clients| == 0 || (|s.clients| == 1 && |s.workers| > 0))
    ensures !StuckAt(s, j)
  {
    hide Quiescent;
    var ss, ls :| Run(ss, ls) && ss[|ls|] == s;
    forall m | 0 <= m < |ls| ensures OneWaiter(ss[m]) {
      SizesKept(ss, ls, m);
      SizesKept(ss, ls, |ls|);
    }
    WaiterWoken(ss, ls, |ls|);
  }

  /** In no run of a pool of 'w' workers and 'c' callers anybody sleeps in thpool_wait once all is quiet. */
  ghost predicate AllWoken(w: nat, c: nat) {
    forall s: State, j: nat | Reachable(s) && |s.workers| == w && |s.clients| == c :: !StuckAt(s, j)
  }

  /** thpool_wait is safe in exactly the pools with at most one caller, and with workers to do the jobs. */
  lemma WaitSafeExactly(w: nat, c: nat)
    ensures AllWoken(w, c) <==> c == 0 || (c == 1 && w > 0)
  {
    hide Reachable, StuckAt;
    if c == 0 || (c == 1 && w > 0) {
      forall s: State, j: nat | Reachable(s) && |s.workers| == w && |s.clients| == c ensures !StuckAt(s, j) {
        OneCallerWoken(s, j);
      }
    } else {
      var task :| true;
      if w > 0 {
        var s := SecondWaiterStuck(w, c, task);
      } else {
        var s := NoWorkersStuck(c, task);
      }
    }
  }
}
