/** TT_ThreadPool (common/tt_threadpool.cpp) as a state machine. A step is what one
    thread does between two points at which another thread can observe it; the parts
    that run under job_mutex are separate steps that exclude each other. */
module ThreadPool {

  datatype Worker =
    | Blocked             // inside job_cv.wait, not notified
    | Awake               // about to take job_mutex and test the wait condition
    | Locked              // holds job_mutex, found a job, has not touched num_free
    | Claimed             // holds job_mutex, has decremented num_free
    | Running(job: nat)   // has popped the job and released job_mutex
    | Returned            // the job has returned, num_free not yet incremented
    | Exited              // left the loop because of stop_flag

  /** The owner's quiescence loop: while (wait() || num_free != num_threads). */
  datatype Observer = Polling | SawEmpty | Quiet

  /** Jobs are numbered in the order they are queued. The fields after `stop` record
      the history: jobs queued so far, jobs popped in order, jobs that returned;
      `notifies` and `notifyAll` are notifications not yet delivered. */
  datatype Pool = Pool(
    numThreads: nat, workers: seq<Worker>, jobs: seq<nat>, numFree: int, stop: bool,
    queued: nat, started: seq<nat>, finished: set<nat>,
    notifies: nat, notifyAll: bool, observer: Observer)

  predicate HoldsMutex(w: Worker) { w.Locked? || w.Claimed? }

  predicate MutexFree(p: Pool) { forall i :: 0 <= i < |p.workers| ==> !HoldsMutex(p.workers[i]) }

  /** Between the decrement and the increment of num_free. */
  predicate Busy(w: Worker) { w.Claimed? || w.Running? || w.Returned? }

  // ----- steps of the owner and of other producers

  predicate Start(p: Pool, p': Pool, n: nat) {
    && p.workers == []
    && p' == p.(numThreads := n, numFree := n, stop := false,
                workers := if n > 1 then seq(n, _ => Awake) else [])
  }

  predicate Push(p: Pool, p': Pool) {
    MutexFree(p) && p' == p.(jobs := p.jobs + [p.queued], queued := p.queued + 1,
                             notifies := p.notifies + 1, observer := Polling)
  }

  /** notify_one: wakes some blocked worker if there is one. */
  predicate NotifyOne(p: Pool, p': Pool, i: nat) {
    && p.notifies > 0
    && if i < |p.workers| then
         p.workers[i].Blocked? && p' == p.(notifies := p.notifies - 1, workers := p.workers[i := Awake])
       else
         (forall k :: 0 <= k < |p.workers| ==> !p.workers[k].Blocked?) && p' == p.(notifies := p.notifies - 1)
  }

  predicate SetStop(p: Pool, p': Pool) {
    MutexFree(p) && p' == p.(stop := true, notifyAll := true)
  }

  predicate NotifyAll(p: Pool, p': Pool) {
    && p.notifyAll
    && p' == p.(notifyAll := false,
                workers := seq(|p.workers|, i requires 0 <= i < |p.workers| =>
                  if p.workers[i].Blocked? then Awake else p.workers[i]))
  }

  /** The joins of stop() return only when every worker has left its loop. */
  predicate Join(p: Pool, p': Pool) {
    && p.stop && !p.notifyAll
    && (forall i :: 0 <= i < |p.workers| ==> p.workers[i].Exited?)
    && p' == p.(workers := [])
  }

  /** wait() reads jobs.empty() under job_mutex. */
  predicate PollJobs(p: Pool, p': Pool) {
    MutexFree(p) && p' == p.(observer := if p.jobs == [] then SawEmpty else Polling)
  }

  /** The second half of the owner's test reads num_free with no lock. */
  predicate ReadFree(p: Pool, p': Pool) {
    p.observer.SawEmpty? && p' == p.(observer := if p.numFree == p.numThreads then Quiet else Polling)
  }

  // ----- steps of worker i

  predicate Test(p: Pool, p': Pool, i: nat) {
    && i < |p.workers| && p.workers[i].Awake? && MutexFree(p)
    && p' == p.(workers := p.workers[i := if p.stop then Exited else if p.jobs != [] then Locked else Blocked])
  }

  predicate Claim(p: Pool, p': Pool, i: nat) {
    i < |p.workers| && p.workers[i].Locked?
    && p' == p.(workers := p.workers[i := Claimed], numFree := p.numFree - 1)
  }

  predicate Pop(p: Pool, p': Pool, i: nat) {
    i < |p.workers| && p.workers[i].Claimed? && p.jobs != []
    && p' == p.(workers := p.workers[i := Running(p.jobs[0])], jobs := p.jobs[1..], started := p.started + [p.jobs[0]])
  }

  predicate Return(p: Pool, p': Pool, i: nat) {
    i < |p.workers| && p.workers[i].Running?
    && p' == p.(workers := p.workers[i := Returned], finished := p.finished + {p.workers[i].job})
  }

  predicate Release(p: Pool, p': Pool, i: nat) {
    i < |p.workers| && p.workers[i].Returned?
    && p' == p.(workers := p.workers[i := Awake], numFree := p.numFree + 1)
  }

  predicate SpuriousWakeup(p: Pool, p': Pool, i: nat) {
    i < |p.workers| && p.workers[i].Blocked? && p' == p.(workers := p.workers[i := Awake])
  }

  /** What a worker does of its own accord. */
  predicate WorkerMove(p: Pool, p': Pool, i: nat) {
    Test(p, p', i) || Claim(p, p', i) || Pop(p, p', i) || Return(p, p', i) || Release(p, p', i)
  }

  predicate WorkerStep(p: Pool, p': Pool, i: nat) {
    WorkerMove(p, p', i) || SpuriousWakeup(p, p', i)
  }

  predicate OwnerStep(p: Pool, p': Pool, i: nat) {
    Start(p, p', i) || Push(p, p') || NotifyOne(p, p', i) || SetStop(p, p') || NotifyAll(p, p')
    || Join(p, p') || PollJobs(p, p') || ReadFree(p, p')
  }

  ghost predicate Step(p: Pool, p': Pool) {
    exists i: nat :: WorkerStep(p, p', i) || OwnerStep(p, p', i)
  }

  /** A pool that has never been started or given a job. */
  predicate IsNew(p: Pool) {
    && p.numThreads == 0 && p.workers == [] && p.jobs == [] && p.numFree == 0 && !p.stop
    && p.queued == 0 && p.started == [] && p.finished == {}
    && p.notifies == 0 && !p.notifyAll && p.observer.Polling?
  }

  ghost predicate Run(trace: seq<Pool>) {
    && |trace| >= 1 && IsNew(trace[0])
    && forall k :: 0 <= k < |trace| - 1 ==> Step(trace[k], trace[k + 1])
  }

  // ----- the invariant

  function CountBusy(ws: seq<Worker>): nat {
    if ws == [] then 0 else CountBusy(ws[1..]) + if Busy(ws[0]) then 1 else 0
  }

  lemma {:induction false} CountUpdate(ws: seq<Worker>, i: nat, w: Worker)
    requires i < |ws|
    ensures CountBusy(ws[i := w]) == CountBusy(ws) - (if Busy(ws[i]) then 1 else 0) + (if Busy(w) then 1 else 0)
  {
    if i > 0 {
      CountUpdate(ws[1..], i - 1, w);
      assert ws[i := w][1..] == ws[1..][i - 1 := w];
    } else {
      assert ws[i := w][1..] == ws[1..];
    }
  }

  lemma {:induction false} CountSame(ws: seq<Worker>, ws': seq<Worker>)
    requires |ws| == |ws'| && forall i :: 0 <= i < |ws| ==> Busy(ws[i]) == Busy(ws'[i])
    ensures CountBusy(ws) == CountBusy(ws')
  {
    if ws != [] { CountSame(ws[1..], ws'[1..]); }
  }

  lemma {:induction false} CountZero(ws: seq<Worker>)
    ensures CountBusy(ws) == 0 <==> forall i :: 0 <= i < |ws| ==> !Busy(ws[i])
    ensures CountBusy(ws) <= |ws|
  {
    if ws != [] {
      CountZero(ws[1..]);
      assert forall i :: 0 < i < |ws| ==> ws[i] == ws[1..][i - 1];
      assert forall i :: 0 <= i < |ws[1..]| ==> ws[1..][i] == ws[i + 1];
    }
  }

  ghost predicate Numbered(p: Pool) {
    && |p.started| + |p.jobs| == p.queued
    && (forall k :: 0 <= k < |p.started| ==> p.started[k] == k)
    && (forall k :: 0 <= k < |p.jobs| ==> p.jobs[k] == |p.started| + k)
  }

  ghost predicate Counted(p: Pool) {
    && p.numFree + CountBusy(p.workers) == p.numThreads
    && (p.workers == [] || |p.workers| == p.numThreads)
  }

  ghost predicate Locking(p: Pool) {
    && (forall i, k :: 0 <= i < k < |p.workers| ==> !(HoldsMutex(p.workers[i]) && HoldsMutex(p.workers[k])))
    && (!MutexFree(p) ==> p.jobs != [] && !p.stop)
    && (!p.stop ==> forall i :: 0 <= i < |p.workers| ==> !p.workers[i].Exited?)
  }

  /** Every started job is running in exactly one worker or has finished. */
  ghost predicate Accounted(p: Pool) {
    && (forall j :: j in p.finished ==> j < |p.started|)
    && (forall i :: 0 <= i < |p.workers| && p.workers[i].Running? ==>
          p.workers[i].job < |p.started| && p.workers[i].job !in p.finished)
    && (forall i, k :: 0 <= i < k < |p.workers| && p.workers[i].Running? && p.workers[k].Running? ==>
          p.workers[i].job != p.workers[k].job)
    && (forall j: nat :: j < |p.started| ==> j in p.finished || IsRunning(p, j))
  }

  ghost predicate IsRunning(p: Pool, j: nat) {
    exists i :: 0 <= i < |p.workers| && p.workers[i] == Running(j)
  }

  /** No wake-up is lost: with work (or a stop) pending, some worker is not blocked or
      a notification is still to be delivered. */
  ghost predicate Alive(p: Pool) {
    && (p.jobs != [] && p.workers != [] ==>
          p.notifies > 0 || p.notifyAll || exists i :: 0 <= i < |p.workers| && !p.workers[i].Blocked?)
    && (p.stop && !p.notifyAll ==> forall i :: 0 <= i < |p.workers| ==> !p.workers[i].Blocked?)
  }

  ghost predicate Observed(p: Pool) {
    && (!p.observer.Polling? ==> p.jobs == [])
    && (p.observer.Quiet? ==> forall j: nat :: j < p.queued ==> j in p.finished)
  }

  ghost predicate Inv(p: Pool) {
    Numbered(p) && Counted(p) && Locking(p) && Accounted(p) && Alive(p) && Observed(p)
  }

  lemma InvStart(p: Pool, p': Pool, n: nat)
    requires Inv(p) && Start(p, p', n)
    ensures Inv(p')
  {
    CountZero(p'.workers);
  }

  lemma InvPush(p: Pool, p': Pool)
    requires Inv(p) && Push(p, p')
    ensures Inv(p')
  {
    assert forall j: nat :: IsRunning(p, j) ==> IsRunning(p', j);
  }

  lemma InvWake(p: Pool, p': Pool, i: nat)
    requires Inv(p) && (NotifyOne(p, p', i) || SpuriousWakeup(p, p', i))
    ensures Inv(p')
  {
    if i < |p.workers| {
      CountUpdate(p.workers, i, Awake);
      StillRunning(p, p', i);
      assert !p'.workers[i].Blocked?;
    } else if p.workers != [] {
      assert !p'.workers[0].Blocked?;
    }
    assert forall j: nat :: IsRunning(p, j) ==> IsRunning(p', j);
  }

  /** Changing one worker that was not running leaves all running jobs running. */
  lemma StillRunning(p: Pool, p': Pool, i: nat)
    requires i < |p.workers| == |p'.workers| && p'.workers == p.workers[i := p'.workers[i]] && !p.workers[i].Running?
    ensures forall j: nat :: IsRunning(p, j) ==> IsRunning(p', j)
  {
    forall j: nat | IsRunning(p, j)
      ensures IsRunning(p', j)
    {
      var k :| 0 <= k < |p.workers| && p.workers[k] == Running(j);
      assert p'.workers[k] == Running(j);
    }
  }

  lemma InvStop(p: Pool, p': Pool)
    requires Inv(p) && SetStop(p, p')
    ensures Inv(p')
  {
    assert forall j: nat :: IsRunning(p, j) ==> IsRunning(p', j);
  }

  lemma InvNotifyAll(p: Pool, p': Pool)
    requires Inv(p) && NotifyAll(p, p')
    ensures Inv(p')
  {
    CountSame(p.workers, p'.workers);
    forall j: nat | IsRunning(p, j)
      ensures IsRunning(p', j)
    {
      var k :| 0 <= k < |p.workers| && p.workers[k] == Running(j);
      assert p'.workers[k] == Running(j);
    }
    if p.workers != [] {
      assert !p'.workers[0].Blocked?;
    }
  }

  lemma InvJoin(p: Pool, p': Pool)
    requires Inv(p) && Join(p, p')
    ensures Inv(p')
  {
    CountZero(p.workers);
    assert forall j: nat :: !IsRunning(p, j);
  }

  lemma InvObserve(p: Pool, p': Pool)
    requires Inv(p) && (PollJobs(p, p') || ReadFree(p, p'))
    ensures Inv(p')
  {
    assert forall j: nat :: IsRunning(p, j) ==> IsRunning(p', j);
    CountZero(p.workers);
    if p'.observer.Quiet? {
      assert forall j: nat :: !IsRunning(p, j);
    }
  }

  lemma InvTest(p: Pool, p': Pool, i: nat)
    requires Inv(p) && Test(p, p', i)
    ensures Inv(p')
  {
    CountUpdate(p.workers, i, p'.workers[i]);
    StillRunning(p, p', i);
    if p.jobs != [] {
      assert !p'.workers[i].Blocked?;
    }
  }

  lemma InvClaim(p: Pool, p': Pool, i: nat)
    requires Inv(p) && Claim(p, p', i)
    ensures Inv(p')
  {
    CountUpdate(p.workers, i, Claimed);
    StillRunning(p, p', i);
    assert HoldsMutex(p.workers[i]) && HoldsMutex(p'.workers[i]);
    assert !p'.workers[i].Blocked?;
  }

  lemma InvPop(p: Pool, p': Pool, i: nat)
    requires Inv(p) && Pop(p, p', i)
    ensures Inv(p')
  {
    CountUpdate(p.workers, i, p'.workers[i]);
    StillRunning(p, p', i);
    assert HoldsMutex(p.workers[i]);
    assert MutexFree(p');
    assert p'.workers[i] == Running(|p.started|);
    assert !p'.workers[i].Blocked?;
    assert IsRunning(p', |p.started|);
  }

  lemma InvReturn(p: Pool, p': Pool, i: nat)
    requires Inv(p) && Return(p, p', i)
    ensures Inv(p')
  {
    CountUpdate(p.workers, i, Returned);
    hide CountBusy;
    forall j: nat | j < |p'.started| && j !in p'.finished
      ensures IsRunning(p', j)
    {
      var k :| 0 <= k < |p.workers| && p.workers[k] == Running(j);
      assert p'.workers[k] == Running(j);
    }
    assert !p'.workers[i].Blocked?;
    MutexSame(p, p', i);
  }

  lemma InvRelease(p: Pool, p': Pool, i: nat)
    requires Inv(p) && Release(p, p', i)
    ensures Inv(p')
  {
    CountUpdate(p.workers, i, Awake);
    StillRunning(p, p', i);
    assert !p'.workers[i].Blocked?;
    MutexSame(p, p', i);
  }

  lemma MutexSame(p: Pool, p': Pool, i: nat)
    requires i < |p.workers| == |p'.workers| && p'.workers == p.workers[i := p'.workers[i]]
    requires HoldsMutex(p.workers[i]) == HoldsMutex(p'.workers[i])
    ensures MutexFree(p) == MutexFree(p')
  {
    assert forall k :: 0 <= k < |p.workers| ==> HoldsMutex(p.workers[k]) == HoldsMutex(p'.workers[k]);
  }

  lemma InvStep(p: Pool, p': Pool)
    requires Inv(p) && Step(p, p')
    ensures Inv(p')
  {
    hide Inv;
    var i: nat :| WorkerStep(p, p', i) || OwnerStep(p, p', i);
    if {
      case Start(p, p', i) => InvStart(p, p', i);
      case Push(p, p') => InvPush(p, p');
      case NotifyOne(p, p', i) || SpuriousWakeup(p, p', i) => InvWake(p, p', i);
      case SetStop(p, p') => InvStop(p, p');
      case NotifyAll(p, p') => InvNotifyAll(p, p');
      case Join(p, p') => InvJoin(p, p');
      case PollJobs(p, p') || ReadFree(p, p') => InvObserve(p, p');
      case Test(p, p', i) => InvTest(p, p', i);
      case Claim(p, p', i) => InvClaim(p, p', i);
      case Pop(p, p', i) => InvPop(p, p', i);
      case Return(p, p', i) => InvReturn(p, p', i);
      case Release(p, p', i) => InvRelease(p, p', i);
    }
  }

  lemma InvNew(p: Pool)
    requires IsNew(p)
    ensures Inv(p)
  {
    AccountedEmpty(p);
  }

  lemma AccountedEmpty(p: Pool)
    requires p.workers == [] && p.started == [] && p.finished == {}
    ensures Accounted(p)
  {}

  lemma {:induction false} InvRun(trace: seq<Pool>, k: nat)
    requires Run(trace) && k < |trace|
    ensures Inv(trace[k])
  {
    hide Inv, Step;
    if k == 0 {
      InvNew(trace[0]);
    } else {
      InvRun(trace, k - 1);
      InvStep(trace[k - 1], trace[k]);
    }
  }

  // ----- what every run keeps

  /** The owner's test is sound: after it has seen no queued job and then num_free equal
      to num_threads, with no push in between, every job queued so far has returned. */
  lemma QuiescenceIsSound(trace: seq<Pool>, k: nat)
    requires Run(trace) && k < |trace| && trace[k].observer.Quiet?
    ensures trace[k].jobs == []
    ensures forall j: nat :: j < trace[k].queued ==> j in trace[k].finished
    ensures forall i :: 0 <= i < |trace[k].workers| ==> !trace[k].workers[i].Running?
  {
    InvRun(trace, k);
  }

  /** num_free counts the workers outside the stretch between taking a job and having
      returned from it; as an unsigned counter it never wraps. */
  lemma FreeCount(trace: seq<Pool>, k: nat)
    requires Run(trace) && k < |trace|
    ensures trace[k].numFree + CountBusy(trace[k].workers) == trace[k].numThreads
    ensures 0 <= trace[k].numFree <= trace[k].numThreads
  {
    InvRun(trace, k);
    CountZero(trace[k].workers);
  }

  /** Jobs start in the order they were queued, each at most once, and only jobs that
      started can have finished. */
  lemma FifoAtMostOnce(trace: seq<Pool>, k: nat)
    requires Run(trace) && k < |trace|
    ensures trace[k].started + trace[k].jobs == seq(trace[k].queued, j => j)
    ensures forall j :: j in trace[k].finished ==> j < |trace[k].started|
  {
    InvRun(trace, k);
  }

  lemma StepHistory(p: Pool, p': Pool)
    requires Inv(p) && Step(p, p')
    ensures p.started <= p'.started && p.finished <= p'.finished
    ensures p.stop ==> p'.started == p.started
  {
    assert p.stop ==> MutexFree(p);
    hide Inv, WorkerStep, OwnerStep;
    var i: nat :| WorkerStep(p, p', i) || OwnerStep(p, p', i);
    if WorkerStep(p, p', i) { WorkerHistory(p, p', i); } else { OwnerHistory(p, p', i); }
  }

  lemma WorkerHistory(p: Pool, p': Pool, i: nat)
    requires WorkerStep(p, p', i) && (p.stop ==> MutexFree(p))
    ensures p.started <= p'.started && p.finished <= p'.finished
    ensures p.stop ==> p'.started == p.started
  {
    if Pop(p, p', i) {
      assert HoldsMutex(p.workers[i]);
    }
  }

  lemma OwnerHistory(p: Pool, p': Pool, i: nat)
    requires OwnerStep(p, p', i)
    ensures p'.started == p.started && p'.finished == p.finished
  {}

  lemma {:induction false} HistoryGrows(trace: seq<Pool>, k: nat, l: nat)
    requires Run(trace) && k <= l < |trace|
    ensures trace[k].started <= trace[l].started && trace[k].finished <= trace[l].finished
    decreases l - k
  {
    hide Inv, Step;
    if k < l {
      HistoryGrows(trace, k, l - 1);
      InvRun(trace, l - 1);
      StepHistory(trace[l - 1], trace[l]);
    }
  }

  /** Once stop is set no job starts, until the pool is started again. */
  lemma {:induction false} NoStartAfterStop(trace: seq<Pool>, k: nat, l: nat)
    requires Run(trace) && k <= l < |trace|
    requires forall m :: k <= m <= l ==> trace[m].stop
    ensures trace[l].started == trace[k].started
    decreases l - k
  {
    hide Inv, Step;
    if k < l {
      NoStartAfterStop(trace, k, l - 1);
      InvRun(trace, l - 1);
      StepHistory(trace[l - 1], trace[l]);
    }
  }

  /** When the pool has no threads, exactly the started jobs have finished. */
  lemma NothingRunsAfterJoin(trace: seq<Pool>, k: nat)
    requires Run(trace) && k < |trace| && trace[k].workers == []
    ensures forall j: nat :: j in trace[k].finished <==> j < |trace[k].started|
    ensures trace[k].numFree == trace[k].numThreads
  {
    InvRun(trace, k);
    assert forall j: nat :: !IsRunning(trace[k], j);
  }

  /** Of the jobs queued when the stop flag is set, those still waiting are abandoned: when
      the threads have been joined, every queued job has finished exactly if none was
      waiting, and the jobs left over are exactly those that were. */
  lemma StopAbandonsTheQueue(trace: seq<Pool>, k: nat, l: nat)
    requires Run(trace) && k <= l < |trace| && trace[l].workers == []
    requires forall m :: k <= m <= l ==> trace[m].stop
    requires trace[l].queued == trace[k].queued
    ensures (forall j: nat :: j < trace[l].queued ==> j in trace[l].finished) <==> trace[k].jobs == []
    ensures forall j: nat :: j < trace[l].queued ==> (j !in trace[l].finished <==> j in trace[k].jobs)
    ensures trace[l].jobs == trace[k].jobs
  {
    hide Step;
    NothingRunsAfterJoin(trace, l);
    NoStartAfterStop(trace, k, l);
    InvRun(trace, k);
    InvRun(trace, l);
    var jobs, n := trace[k].jobs, |trace[k].started|;
    assert trace[k].queued == n + |jobs|;
    forall j: nat | j < trace[l].queued
      ensures j < n <==> j !in jobs
    {
      if j >= n { assert jobs[j - n] == j; }
    }
    if jobs != [] {
      assert jobs[0] == n && n < trace[l].queued && n !in trace[l].finished;
    }
  }

  /** Such a run exists for every number of threads above one: a job is queued, and stop()
      gets the mutex before any worker does. */
  lemma StopCanAbandon(n: nat) returns (trace: seq<Pool>)
    requires n > 1
    ensures Run(trace)
    ensures var end := trace[|trace| - 1]; end.stop && end.workers == [] && end.queued == 1 && 0 !in end.finished
  {
    var new' := Pool(0, [], [], 0, false, 0, [], {}, 0, false, Polling);
    var started := new'.(numThreads := n, numFree := n, workers := seq(n, _ => Awake));
    var pushed := started.(jobs := [0], queued := 1, notifies := 1);
    var stopping := pushed.(stop := true, notifyAll := true);
    assert Start(new', started, n);
    assert Push(started, pushed);
    assert SetStop(pushed, stopping);
    trace := [new', started, pushed, stopping];
    assert Run(trace) by {
      assert OwnerStep(new', started, n) && OwnerStep(started, pushed, n) && OwnerStep(pushed, stopping, n);
    }
    for i := 0 to n
      invariant Run(trace)
      invariant trace[|trace| - 1] == stopping.(workers := Leaving(n, i))
    {
      var p := trace[|trace| - 1];
      var p' := stopping.(workers := Leaving(n, i + 1));
      assert Leaving(n, i)[i := Exited] == Leaving(n, i + 1);
      assert Test(p, p', i);
      assert WorkerStep(p, p', i);
      trace := trace + [p'];
    }
    var p := trace[|trace| - 1];
    var notified := p.(notifyAll := false);
    assert NotifyAll(p, notified);
    assert OwnerStep(p, notified, 0);
    var joined := notified.(workers := []);
    assert Join(notified, joined);
    assert OwnerStep(notified, joined, 0);
    trace := trace + [notified, joined];
  }

  /** The first i of n woken workers have left their loops. */
  function Leaving(n: nat, i: nat): (ws: seq<Worker>)
    ensures |ws| == n && forall k :: 0 <= k < n ==> ws[k] == if k < i then Exited else Awake
  {
    seq(n, k => if k < i then Exited else Awake)
  }

  /** The pool never gets stuck: while jobs wait, or the pool is stopping and some worker has
      not left its loop, it can move without any help from the owner and without a
      spurious wake-up. */
  lemma NeverStuck(trace: seq<Pool>, k: nat) returns (p': Pool)
    requires Run(trace) && k < |trace|
    requires var p := trace[k];
      if p.stop then exists i :: 0 <= i < |p.workers| && !p.workers[i].Exited? else p.jobs != [] && p.workers != []
    ensures exists i: nat :: p' != trace[k] && Unaided(trace[k], p', i)
  {
    InvRun(trace, k);
    var p := trace[k];
    if p.notifyAll {
      p' := p.(notifyAll := false, workers := seq(|p.workers|, i requires 0 <= i < |p.workers| =>
                  if p.workers[i].Blocked? then Awake else p.workers[i]));
      assert Unaided(p, p', 0);
    } else if exists i :: 0 <= i < |p.workers| && !p.workers[i].Blocked? && !p.workers[i].Exited? {
      var i: nat;
      i, p' := MovingWorker(p);
      assert Unaided(p, p', i);
    } else {
      assert p.workers[0].Blocked?;
      p' := p.(notifies := p.notifies - 1, workers := p.workers[0 := Awake]);
      assert Unaided(p, p', 0);
    }
  }

  /** A worker moves, or a notification that was given is delivered. */
  predicate Unaided(p: Pool, p': Pool, i: nat) {
    WorkerMove(p, p', i) || NotifyOne(p, p', i) || NotifyAll(p, p')
  }

  /** That says something: a pool that had lost all its notifications could not move at all. */
  lemma LostWakeupIsStuck(p: Pool, p': Pool, i: nat)
    requires p.workers != [] && forall k :: 0 <= k < |p.workers| ==> p.workers[k].Blocked?
    requires p.notifies == 0 && !p.notifyAll
    ensures !Unaided(p, p', i)
  {}

  lemma MovingWorker(p: Pool) returns (i: nat, p': Pool)
    requires Inv(p) && exists i :: 0 <= i < |p.workers| && !p.workers[i].Blocked? && !p.workers[i].Exited?
    ensures i < |p.workers| && p' != p && WorkerMove(p, p', i)
  {
    if MutexFree(p) {
      i :| i < |p.workers| && !p.workers[i].Blocked? && !p.workers[i].Exited?;
    } else {
      i :| i < |p.workers| && HoldsMutex(p.workers[i]);
    }
    match p.workers[i]
    case Awake =>
      p' := p.(workers := p.workers[i := if p.stop then Exited else if p.jobs != [] then Locked else Blocked]);
      assert p'.workers[i] != p.workers[i];
    case Locked =>
      p' := p.(workers := p.workers[i := Claimed], numFree := p.numFree - 1);
    case Claimed =>
      p' := p.(workers := p.workers[i := Running(p.jobs[0])], jobs := p.jobs[1..], started := p.started + [p.jobs[0]]);
      assert p'.workers[i] != p.workers[i];
    case Running(j) =>
      p' := p.(workers := p.workers[i := Returned], finished := p.finished + {j});
      assert p'.workers[i] != p.workers[i];
    case Returned =>
      p' := p.(workers := p.workers[i := Awake], numFree := p.numFree + 1);
  }

  // ----- every waiting job has been announced

  /** Workers that will take a job, or look for one, without being notified. */
  predicate Ready(w: Worker) { w.Awake? || w.Locked? || w.Claimed? }

  function CountReady(ws: seq<Worker>): nat {
    if ws == [] then 0 else CountReady(ws[1..]) + if Ready(ws[0]) then 1 else 0
  }

  lemma {:induction false} ReadyUpdate(ws: seq<Worker>, i: nat, w: Worker)
    requires i < |ws|
    ensures CountReady(ws[i := w]) == CountReady(ws) - (if Ready(ws[i]) then 1 else 0) + (if Ready(w) then 1 else 0)
  {
    if i > 0 {
      ReadyUpdate(ws[1..], i - 1, w);
      assert ws[i := w][1..] == ws[1..][i - 1 := w];
    } else {
      assert ws[i := w][1..] == ws[1..];
    }
  }

  ghost predicate SomeBlocked(p: Pool) {
    exists i :: 0 <= i < |p.workers| && p.workers[i].Blocked?
  }

  /** While a worker waits to be notified, there is for every waiting job a notification on
      its way or a worker that will look for a job anyway. */
  ghost predicate Announced(p: Pool) {
    !p.stop && SomeBlocked(p) ==> |p.jobs| <= p.notifies + CountReady(p.workers)
  }

  /** A worker blocks only when no job waits. */
  lemma NoneBlocks(p: Pool, p': Pool, i: nat)
    requires WorkerStep(p, p', i) && !SomeBlocked(p) && p'.jobs != []
    ensures !SomeBlocked(p')
  {
    forall k | 0 <= k < |p'.workers|
      ensures !p'.workers[k].Blocked?
    {
      assert !p.workers[k].Blocked?;
    }
  }

  lemma AnnouncedByWorker(p: Pool, p': Pool, i: nat)
    requires Announced(p) && WorkerStep(p, p', i)
    ensures Announced(p')
  {
    hide SomeBlocked;
    ReadyUpdate(p.workers, i, p'.workers[i]);
    if !SomeBlocked(p) && p'.jobs != [] {
      NoneBlocks(p, p', i);
    }
  }

  lemma AnnouncedByOwner(p: Pool, p': Pool, i: nat)
    requires Announced(p) && OwnerStep(p, p', i)
    ensures Announced(p')
  {
    if NotifyOne(p, p', i) && i < |p.workers| {
      ReadyUpdate(p.workers, i, Awake);
      assert SomeBlocked(p);
    }
    assert SomeBlocked(p') && p'.workers == p.workers ==> SomeBlocked(p);
  }

  /** No notification is lost: in every reachable state in which the pool is not stopping and
      some worker waits for a notification, there are no more waiting jobs than
      notifications on their way and workers about to look for a job, even if other
      workers are busy for long. */
  lemma {:induction false} NoLostWakeup(trace: seq<Pool>, k: nat)
    requires Run(trace) && k < |trace|
    ensures !trace[k].stop && SomeBlocked(trace[k]) ==> |trace[k].jobs| <= trace[k].notifies + CountReady(trace[k].workers)
  {
    if k > 0 {
      hide CountReady, SomeBlocked, WorkerStep, OwnerStep;
      NoLostWakeup(trace, k - 1);
      var i: nat :| WorkerStep(trace[k - 1], trace[k], i) || OwnerStep(trace[k - 1], trace[k], i);
      if WorkerStep(trace[k - 1], trace[k], i) {
        AnnouncedByWorker(trace[k - 1], trace[k], i);
      } else {
        AnnouncedByOwner(trace[k - 1], trace[k], i);
      }
    }
  }

  /** A pool that is started with one thread, or none, has no workers: whatever is queued
      is never run. */
  lemma {:induction false} SmallPoolRunsNothing(trace: seq<Pool>, k: nat)
    requires Run(trace) && k < |trace| && forall m :: 0 <= m <= k ==> trace[m].numThreads <= 1
    ensures trace[k].workers == [] && trace[k].started == [] && trace[k].finished == {}
  {
    if k > 0 {
      SmallPoolRunsNothing(trace, k - 1);
      var i: nat :| WorkerStep(trace[k - 1], trace[k], i) || OwnerStep(trace[k - 1], trace[k], i);
    }
  }

  // ----- stopping comes to an end

  /** How many moves a worker still makes once the stop flag is set. */
  function MovesLeft(w: Worker): nat {
    match w
    case Running(_) => 3
    case Returned => 2
    case Blocked => 2
    case Exited => 0
    case _ => 1
  }

  function TotalMoves(ws: seq<Worker>): nat {
    if ws == [] then 0 else TotalMoves(ws[1..]) + MovesLeft(ws[0])
  }

  lemma {:induction false} TotalUpdate(ws: seq<Worker>, i: nat, w: Worker)
    requires i < |ws|
    ensures TotalMoves(ws[i := w]) == TotalMoves(ws) - MovesLeft(ws[i]) + MovesLeft(w)
  {
    if i > 0 {
      TotalUpdate(ws[1..], i - 1, w);
      assert ws[i := w][1..] == ws[1..][i - 1 := w];
    } else {
      assert ws[i := w][1..] == ws[1..];
    }
  }

  lemma {:induction false} TotalBounds(ws: seq<Worker>, ws': seq<Worker>)
    requires |ws| == |ws'| && forall i :: 0 <= i < |ws| ==> MovesLeft(ws'[i]) <= MovesLeft(ws[i])
    ensures TotalMoves(ws') <= TotalMoves(ws) <= 3 * |ws|
  {
    if ws != [] { TotalBounds(ws[1..], ws'[1..]); }
  }

  ghost predicate ByWorker(p: Pool, p': Pool) {
    exists i: nat :: WorkerStep(p, p', i)
  }

  /** Every step taken while the flag is set leaves no more moves than before, and every
      step of a worker, even a spurious wake-up, leaves fewer. */
  lemma StopStep(p: Pool, p': Pool)
    requires Inv(p) && Step(p, p') && p.stop && p'.stop
    ensures TotalMoves(p'.workers) <= TotalMoves(p.workers)
    ensures ByWorker(p, p') ==> TotalMoves(p'.workers) < TotalMoves(p.workers)
  {
    hide Inv, WorkerStep, OwnerStep;
    if ByWorker(p, p') {
      var i: nat :| WorkerStep(p, p', i);
      StopWorker(p, p', i);
    } else {
      var i: nat :| OwnerStep(p, p', i);
      StopOwner(p, p', i);
    }
  }

  lemma StopWorker(p: Pool, p': Pool, i: nat)
    requires Inv(p) && WorkerStep(p, p', i) && p.stop
    ensures TotalMoves(p'.workers) < TotalMoves(p.workers)
  {
    assert MutexFree(p) && !HoldsMutex(p.workers[i]);
    hide Inv;
    TotalUpdate(p.workers, i, p'.workers[i]);
  }

  lemma StopOwner(p: Pool, p': Pool, i: nat)
    requires OwnerStep(p, p', i) && p.stop && p'.stop
    ensures TotalMoves(p'.workers) <= TotalMoves(p.workers)
  {
    if p'.workers != [] {
      TotalBounds(p.workers, p'.workers);
    }
  }

  /** The positions between k and l at which a worker moves. */
  ghost function WorkerSteps(trace: seq<Pool>, k: nat, l: nat): nat
    requires k <= l < |trace|
    decreases l - k
  {
    if k == l then 0
    else WorkerSteps(trace, k, l - 1) + if ByWorker(trace[l - 1], trace[l]) then 1 else 0
  }

  /** Once the flag is set the workers make at most three moves each: with NeverStuck,
      they all leave their loops, and the joins of stop() return. */
  lemma StopTerminates(trace: seq<Pool>, k: nat, l: nat)
    requires Run(trace) && k <= l < |trace|
    requires forall m :: k <= m <= l ==> trace[m].stop
    ensures WorkerSteps(trace, k, l) <= 3 * |trace[k].workers|
  {
    StopSpends(trace, k, l);
    TotalBounds(trace[k].workers, trace[k].workers);
  }

  lemma {:induction false} StopSpends(trace: seq<Pool>, k: nat, l: nat)
    requires Run(trace) && k <= l < |trace|
    requires forall m :: k <= m <= l ==> trace[m].stop
    ensures WorkerSteps(trace, k, l) + TotalMoves(trace[l].workers) <= TotalMoves(trace[k].workers)
    decreases l - k
  {
    hide Inv, Step, ByWorker;
    if k < l {
      StopSpends(trace, k, l - 1);
      InvRun(trace, l - 1);
      StopStep(trace[l - 1], trace[l]);
    }
  }
}
