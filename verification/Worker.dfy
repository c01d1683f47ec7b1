/** The job queue of src/common/worker.c: the worker thread and one controlling thread as a transition system, one step
    per stretch between taking or releasing the mutex and waiting on the condition. */
module Worker {
  import opened Common

  /** `id` counts the submissions; `kind` is the type word of the job. */
  datatype Job = Job(id: nat, kind: int)

  type Match = Job -> bool

  datatype Status = Held | Active | Stopped
  datatype Who = Nobody | ByWorker | ByController

  /** Where the worker thread is; each value names what it does next. */
  datatype WorkerPc =
    | WEnter                 // take the mutex for the first time
    | WLoop                  // holds it, at the head of the loop
    | WWaiting               // inside pthread_cond_wait
    | WWoken                 // take the mutex again
    | WRunning               // inside job_cb, without the mutex
    | WDone                  // take the mutex after the job
    | WFree                  // holds it: free the job
    | WNotify                // holds it: end a cancellation
    | WExited

  /** Where the controlling thread is. */
  datatype ControllerPc =
    | CIdle
    | CAdd(job: Job)         // take the mutex for worker_add_job
    | CAppend(job: Job)
    | CRemove(cb: Match)     // take the mutex for worker_remove_jobs_by_cb
    | CSweep(cb: Match, at: nat)
    | CCurrent(cb: Match)    // look at the running job
    | CRecheck(cb: Match)    // the loop on cancel_current
    | CWaiting(cb: Match)
    | CWoken(cb: Match)
    | CLeave(cb: Match)      // about to return, everything removed
    | CStatus(status: Status)
    | CSetStatus(status: Status)

  /** The shared state, the places of both threads, and the history of jobs submitted, started and freed. */
  datatype State = State(queue: seq<Job>, cur: Option<Job>, cancel: bool, status: Status, owner: Who,
                         w: WorkerPc, c: ControllerPc, submitted: seq<Job>, started: seq<Job>, freed: seq<Job>)

  ghost predicate Initial(s: State) {
    && s.queue == s.submitted == s.started == s.freed == [] && s.cur == None && !s.cancel && s.status == Held
    && s.owner == Nobody && s.w == WEnter && s.c.CIdle?
  }

  /** pthread_cond_signal: one of the threads that wait is woken. */
  ghost predicate Signalled(s: State, s': State) {
    || (s.w == WWaiting && s' == s.(w := WWoken))
    || (s.c.CWaiting? && s' == s.(c := CWoken(s.c.cb)))
    || (s.w != WWaiting && !s.c.CWaiting? && s' == s)
  }

  function Without(s: seq<Job>, i: nat): seq<Job>
    requires i < |s|
  { s[..i] + s[i + 1..] }

  ghost predicate WorkerStep(s: State, s': State) {
    match s.w
    case WEnter => s.owner == Nobody && s' == s.(owner := ByWorker, w := WLoop)
    case WLoop =>
      if s.status != Active || s.queue == [] then
        if s.status == Stopped then s' == s.(owner := Nobody, w := WExited)
        else s' == s.(owner := Nobody, w := WWaiting)
      else
        s' == s.(queue := s.queue[1..], cur := Some(s.queue[0]), owner := Nobody, w := WRunning,
                 started := s.started + [s.queue[0]])
    case WWaiting => s' == s.(w := WWoken)
    case WWoken => s.owner == Nobody && s' == s.(owner := ByWorker, w := WLoop)
    case WRunning => s' == s.(w := WDone)
    case WDone => s.owner == Nobody && s' == s.(owner := ByWorker, w := WFree)
    case WFree => s.cur.Some? && s' == s.(freed := s.freed + [s.cur.value], cur := None, w := WNotify)
    case WNotify => if s.cancel then Signalled(s.(cancel := false, w := WLoop), s') else s' == s.(w := WLoop)
    case WExited => false
  }

  ghost predicate ControllerStep(s: State, s': State) {
    match s.c
    case CIdle =>
      || (exists kind :: s' == s.(c := CAdd(Job(|s.submitted|, kind))))
      || (exists cb :: s' == s.(c := CRemove(cb)))
      || (exists status :: s' == s.(c := CStatus(status)))
    case CAdd(job) => s.owner == Nobody && s' == s.(owner := ByController, c := CAppend(job))
    case CAppend(job) =>
      Signalled(s.(queue := s.queue + [job], submitted := s.submitted + [job], owner := Nobody, c := CIdle), s')
    case CRemove(cb) => s.owner == Nobody && s' == s.(owner := ByController, c := CSweep(cb, 0))
    case CSweep(cb, at) =>
      if at >= |s.queue| then s' == s.(c := CCurrent(cb))
      else if cb(s.queue[at]) then s' == s.(queue := Without(s.queue, at), freed := s.freed + [s.queue[at]])
      else s' == s.(c := CSweep(cb, at + 1))
    case CCurrent(cb) =>
      if s.cur.Some? && cb(s.cur.value) then s' == s.(cancel := true, c := CRecheck(cb)) else s' == s.(c := CLeave(cb))
    case CRecheck(cb) => if s.cancel then s' == s.(owner := Nobody, c := CWaiting(cb)) else s' == s.(c := CLeave(cb))
    case CWaiting(cb) => s' == s.(c := CWoken(cb))
    case CWoken(cb) => s.owner == Nobody && s' == s.(owner := ByController, c := CRecheck(cb))
    case CLeave(cb) => s' == s.(owner := Nobody, c := CIdle)
    case CStatus(status) => s.owner == Nobody && s' == s.(owner := ByController, c := CSetStatus(status))
    case CSetStatus(status) => Signalled(s.(status := status, owner := Nobody, c := CIdle), s')
  }

  ghost predicate Step(s: State, s': State) { WorkerStep(s, s') || ControllerStep(s, s') }

  // ---- the invariant ----

  ghost predicate Rising(s: seq<Job>) { forall i, j :: 0 <= i < j < |s| ==> s[i].id < s[j].id }

  /** The jobs so far, by their numbers. */
  ghost predicate Numbered(s: State) {
    && (forall i :: 0 <= i < |s.submitted| ==> s.submitted[i].id == i)
    && (forall x :: x in s.queue ==> x.id < |s.submitted|) && (forall x :: x in s.freed ==> x.id < |s.submitted|)
    && (forall i :: 0 <= i < |s.started| ==> s.started[i].id < |s.submitted|)
    && (s.c.CAdd? || s.c.CAppend? ==> s.c.job.id == |s.submitted|)
  }

  /** Jobs are queued and started in the order of submission. */
  ghost predicate Ordered(s: State) {
    && Rising(s.queue) && Rising(s.started)
    && (forall i, x :: 0 <= i < |s.started| && x in s.queue ==> s.started[i].id < x.id)
    && (s.cur.Some? ==> s.started != [] && s.started[|s.started| - 1] == s.cur.value)
  }

  /** Every submitted job is queued, current or freed, in one of these ways only. */
  ghost predicate Kept(s: State) {
    && (forall i, j :: 0 <= i < j < |s.freed| ==> s.freed[i] != s.freed[j])
    && (forall x :: x in s.submitted <==> x in s.queue || s.cur == Some(x) || x in s.freed)
    && (forall x :: x in s.freed ==> x !in s.queue && s.cur != Some(x))
    && (s.cur.Some? ==> s.cur.value !in s.queue)
  }

  ghost predicate Places(s: State) {
    && (s.owner == ByWorker <==> s.w == WLoop || s.w == WFree || s.w == WNotify)
    && (s.owner == ByController <==>
          s.c.CAppend? || s.c.CSweep? || s.c.CCurrent? || s.c.CRecheck? || s.c.CLeave? || s.c.CSetStatus?)
    && (s.cur.Some? <==> s.w == WRunning || s.w == WDone || s.w == WFree)
    && (s.w == WWaiting ==> s.status != Stopped && (s.status != Active || s.queue == []))
  }

  ghost predicate Cancelling(s: State) {
    && (s.cancel ==> (s.c.CRecheck? || s.c.CWaiting? || s.c.CWoken?) && (s.cur.Some? || s.w == WNotify))
    && (s.c.CWaiting? ==> s.cancel)
  }

  ghost predicate Matched(cb: Match, cur: Option<Job>) { cur.Some? && cb(cur.value) }

  /** What worker_remove_jobs_by_cb has achieved at each of its places. */
  ghost predicate Removing(s: State) {
    match s.c
    case CSweep(cb, at) => at <= |s.queue| && forall i :: 0 <= i < at ==> !cb(s.queue[i])
    case CCurrent(cb) => forall x :: x in s.queue ==> !cb(x)
    case CRecheck(cb) => (forall x :: x in s.queue ==> !cb(x)) && (Matched(cb, s.cur) ==> s.cancel)
    case CWaiting(cb) => (forall x :: x in s.queue ==> !cb(x)) && (Matched(cb, s.cur) ==> s.cancel)
    case CWoken(cb) => (forall x :: x in s.queue ==> !cb(x)) && (Matched(cb, s.cur) ==> s.cancel)
    case CLeave(cb) => (forall x :: x in s.queue ==> !cb(x)) && !Matched(cb, s.cur)
    case _ => true
  }

  ghost predicate Inv(s: State) {
    Numbered(s) && Ordered(s) && Kept(s) && Places(s) && Cancelling(s) && Removing(s)
  }

  /** A signal changes no more than the place of a thread that waits. */
  ghost predicate Woken(s: State, s': State) {
    s' == s.(w := s'.w, c := s'.c) && (s'.w == s.w || (s.w == WWaiting && s'.w == WWoken))
    && (s'.c == s.c || (s.c.CWaiting? && s'.c == CWoken(s.c.cb)))
  }

  lemma SignalWakes(s: State, s': State)
    requires Signalled(s, s')
    ensures Woken(s, s') && (s.c.CWaiting? && s.w != WWaiting ==> s'.c == CWoken(s.c.cb))
            && (!s.c.CWaiting? ==> s'.w != WWaiting)
  {
  }

  lemma WokenInv(s: State, s': State)
    requires Woken(s, s') && Numbered(s) && Ordered(s) && Kept(s) && Removing(s)
    ensures Numbered(s') && Ordered(s') && Kept(s') && Removing(s')
  {
  }

  ghost predicate SameJobs(s: State, s': State) {
    s'.queue == s.queue && s'.cur == s.cur && s'.submitted == s.submitted && s'.started == s.started
    && s'.freed == s.freed
  }

  lemma SameJobsInv(s: State, s': State)
    requires SameJobs(s, s') && Numbered(s) && Ordered(s) && Kept(s)
    requires s'.c.CAdd? || s'.c.CAppend? ==> s'.c.job.id == |s.submitted|
    ensures Numbered(s') && Ordered(s') && Kept(s')
  {
  }

  ghost predicate Control(s: State) { Places(s) && Cancelling(s) && Removing(s) }

  lemma WorkerInv(s: State, s': State)
    requires Inv(s) && WorkerStep(s, s')
    ensures Inv(s')
  {
    if s.w == WLoop && s.status == Active && s.queue != [] {
      TakeJob(s, s');
    } else if s.w == WFree {
      FreeJob(s, s');
    } else if s.w == WNotify && s.cancel {
      Notify(s, s');
    } else {
      WorkerControl(s, s');
      SameJobsInv(s, s');
    }
  }

  lemma WorkerControl(s: State, s': State)
    requires Control(s) && WorkerStep(s, s') && s.w != WFree
    requires !(s.w == WLoop && s.status == Active && s.queue != []) && !(s.w == WNotify && s.cancel)
    ensures Control(s') && SameJobs(s, s') && s'.c == s.c
  {
  }

  lemma TakeJob(s: State, s': State)
    requires Inv(s) && WorkerStep(s, s') && s.w == WLoop && s.status == Active && s.queue != []
    ensures Inv(s')
  {
    Tail(s.queue);
    TakeOrdered(s, s');
    TakeKept(s, s');
    TakeControl(s, s');
  }

  lemma Tail(q: seq<Job>)
    requires Rising(q) && q != []
    ensures Rising(q[1..]) && forall x :: x in q[1..] <==> x in q && x != q[0]
    ensures forall x :: x in q[1..] ==> q[0].id < x.id
  {
    assert q == [q[0]] + q[1..];
    forall x | x in q[1..] ensures q[0].id < x.id {
      var i :| 0 <= i < |q| - 1 && q[1..][i] == x;
      assert q[i + 1] == x;
    }
    forall i, j | 0 <= i < j < |q| - 1 ensures q[1..][i].id < q[1..][j].id { assert q[i + 1].id < q[j + 1].id; }
  }

  lemma TakeOrdered(s: State, s': State)
    requires Numbered(s) && Ordered(s) && WorkerStep(s, s') && s.w == WLoop && s.status == Active && s.queue != []
    requires Rising(s.queue[1..]) && forall x :: x in s.queue[1..] ==> x in s.queue && s.queue[0].id < x.id
    ensures Numbered(s') && Ordered(s')
  {
    assert s.queue[0] in s.queue;
  }

  lemma TakeKept(s: State, s': State)
    requires Kept(s) && s.cur == None && WorkerStep(s, s') && s.w == WLoop && s.status == Active && s.queue != []
    requires forall x :: x in s.queue[1..] <==> x in s.queue && x != s.queue[0]
    ensures Kept(s')
  {
    assert s.queue[0] in s.queue;
  }

  lemma TakeControl(s: State, s': State)
    requires Control(s) && WorkerStep(s, s') && s.w == WLoop && s.status == Active && s.queue != []
    requires forall x :: x in s.queue[1..] <==> x in s.queue && x != s.queue[0]
    ensures Control(s')
  {
    assert s.queue[0] in s.queue;
  }

  lemma FreeJob(s: State, s': State)
    requires Inv(s) && WorkerStep(s, s') && s.w == WFree
    ensures Inv(s')
  {
  }

  lemma Notify(s: State, s': State)
    requires Inv(s) && WorkerStep(s, s') && s.w == WNotify && s.cancel
    ensures Inv(s')
  {
    var s1 := s.(cancel := false, w := WLoop);
    SignalWakes(s1, s');
    WokenInv(s1, s');
  }

  lemma ControllerInv(s: State, s': State)
    requires Inv(s) && ControllerStep(s, s')
    ensures Inv(s')
  {
    match s.c
    case CAppend(job) => Append(s, s', job);
    case CSweep(cb, at) =>
      if at < |s.queue| && cb(s.queue[at]) {
        Sweep(s, s', cb, at);
      } else {
        ControllerControl(s, s');
        SameJobsInv(s, s');
      }
    case CSetStatus(status) => SetStatus(s, s', status);
    case _ =>
      ControllerControl(s, s');
      SameJobsInv(s, s');
  }

  lemma ControllerControl(s: State, s': State)
    requires Control(s) && ControllerStep(s, s') && !s.c.CAppend? && !s.c.CSetStatus?
    requires s.c.CSweep? ==> s.c.at >= |s.queue| || !s.c.cb(s.queue[s.c.at])
    requires s.c.CAdd? ==> s.c.job.id == |s.submitted|
    ensures Control(s') && SameJobs(s, s') && (s'.c.CAdd? || s'.c.CAppend? ==> s'.c.job.id == |s.submitted|)
  {
  }

  lemma SetStatus(s: State, s': State, status: Status)
    requires Inv(s) && ControllerStep(s, s') && s.c == CSetStatus(status)
    ensures Inv(s')
  {
    var s1 := s.(status := status, owner := Nobody, c := CIdle);
    SignalWakes(s1, s');
    WokenInv(s1, s');
  }

  lemma Append(s: State, s': State, job: Job)
    requires Inv(s) && ControllerStep(s, s') && s.c == CAppend(job)
    ensures Inv(s')
  {
    var s1 := s.(queue := s.queue + [job], submitted := s.submitted + [job], owner := Nobody, c := CIdle);
    assert job !in s.queue && job !in s.freed;
    SignalWakes(s1, s');
    WokenInv(s1, s');
  }

  lemma Sweep(s: State, s': State, cb: Match, at: nat)
    requires Inv(s) && ControllerStep(s, s') && s.c == CSweep(cb, at) && at < |s.queue| && cb(s.queue[at])
    ensures Inv(s')
  {
    var x, q := s.queue[at], s.queue;
    WithoutMembers(q, at);
  }

  lemma WithoutMembers(q: seq<Job>, at: nat)
    requires at < |q| && Rising(q)
    ensures Rising(Without(q, at)) && forall x :: x in Without(q, at) <==> x in q && x != q[at]
    ensures forall i :: 0 <= i < at ==> Without(q, at)[i] == q[i]
  {
    var r := Without(q, at);
    forall i | 0 <= i < |r| ensures r[i] == q[if i < at then i else i + 1] {}
    assert q == q[..at] + [q[at]] + q[at + 1..];
  }

  // ---- runs ----

  ghost predicate Follows(run: seq<State>, i: nat)
    requires 0 < i < |run|
  { Step(run[i - 1], run[i]) }

  ghost predicate IsRun(run: seq<State>) {
    run != [] && Initial(run[0]) && forall i :: 0 < i < |run| ==> Follows(run, i)
  }

  /** Runs start before the worker does anything, and go on by every step there is and by nothing else. */
  lemma RunGoesOn(s: State, run: seq<State>, s': State)
    requires IsRun(run)
    ensures IsRun([s]) <==> Initial(s)
    ensures IsRun(run + [s']) <==> Step(run[|run| - 1], s')
  {
    var longer := run + [s'];
    forall i | 0 < i < |run| ensures Follows(longer, i) {
      assert Follows(run, i);
    }
    assert Follows(longer, |run|) <==> Step(run[|run| - 1], s');
  }

  lemma {:induction false} RunInv(run: seq<State>, i: nat)
    requires IsRun(run) && i < |run|
    ensures Inv(run[i])
  {
    if i == 0 {
    } else {
      RunInv(run, i - 1);
      assert Follows(run, i);
      if WorkerStep(run[i - 1], run[i]) { WorkerInv(run[i - 1], run[i]); } else { ControllerInv(run[i - 1], run[i]); }
    }
  }

  /** Jobs start in the order of submission, hence each at most once. */
  lemma StartedInOrder(run: seq<State>, i: nat, j: nat, k: nat)
    requires IsRun(run) && i < |run| && j < k < |run[i].started|
    ensures run[i].started[j].id < run[i].started[k].id < |run[i].submitted|
  {
    RunInv(run, i);
  }

  /** No job is lost, none is freed twice, and none while it is queued or runs. */
  lemma FreedOnce(run: seq<State>, i: nat)
    requires IsRun(run) && i < |run|
    ensures var s := run[i];
            && (forall j, k :: 0 <= j < k < |s.freed| ==> s.freed[j] != s.freed[k])
            && (forall x :: x in s.submitted <==> x in s.queue || s.cur == Some(x) || x in s.freed)
            && (forall x :: x in s.freed ==> x !in s.queue && s.cur != Some(x))
            && (s.w == WRunning ==> s.cur.Some?)
  {
    RunInv(run, i);
  }

  /** A removal in progress took job `x`, which matches. */
  ghost predicate Took(run: seq<State>, k: nat, x: Job)
    requires k < |run|
  { run[k].c.CSweep? && run[k].c.cb(x) && x in run[k].queue }

  /** No job is freed that was neither run nor matched a removal. */
  lemma {:induction false} FreedForAReason(run: seq<State>, i: nat, x: Job)
    requires IsRun(run) && i < |run| && x in run[i].freed
    ensures x in run[i].started || exists k: nat :: k < i && Took(run, k, x)
  {
    if i == 0 {
    } else {
      RunInv(run, i - 1);
      assert Follows(run, i);
      if x in run[i - 1].freed {
        FreedForAReason(run, i - 1, x);
        StartedGrows(run[i - 1], run[i]);
      } else {
        NewlyFreed(run[i - 1], run[i], x);
        if x !in run[i].started { assert Took(run, i - 1, x); }
      }
    }
  }

  lemma StartedGrows(s: State, s': State)
    requires Step(s, s')
    ensures s.started <= s'.started && (|s'.started| > |s.started| ==> s.status == Active)
  {
  }

  lemma NewlyFreed(s: State, s': State, x: Job)
    requires Inv(s) && Step(s, s') && x !in s.freed && x in s'.freed
    ensures x in s'.started || (s.c.CSweep? && s.c.cb(x) && x in s.queue)
  {
    if WorkerStep(s, s') && s.w == WFree {
      assert s.cur == Some(x) && s.started[|s.started| - 1] == x;
    }
  }

  /** A status lasts from the call that sets it to the next such call. */
  lemma {:induction false} StatusLasts(run: seq<State>, i: nat, j: nat)
    requires IsRun(run) && i < j < |run| && run[i].c.CSetStatus? && !run[i + 1].c.CSetStatus?
    requires forall k :: i < k < j ==> !run[k].c.CSetStatus?
    ensures run[j].status == run[i].c.status
    decreases j
  {
    assert Follows(run, j);
    if j == i + 1 {
    } else {
      StatusLasts(run, i, j - 1);
    }
  }

  /** After worker_exit no job starts any more, nor while the worker is held, until the status changes. */
  lemma {:induction false} NoneStarts(run: seq<State>, i: nat, j: nat)
    requires IsRun(run) && i < j < |run| && run[i].c.CSetStatus? && !run[i + 1].c.CSetStatus?
    requires run[i].c.status != Active && forall k :: i < k < j ==> !run[k].c.CSetStatus?
    ensures run[j].started == run[i + 1].started
    decreases j
  {
    if j == i + 1 {
    } else {
      NoneStarts(run, i, j - 1);
      StatusLasts(run, i, j - 1);
      assert Follows(run, j);
      StartedGrows(run[j - 1], run[j]);
    }
  }

  /** When worker_remove_jobs_by_cb returns, every matching job submitted so far has been freed. */
  lemma RemovedAll(run: seq<State>, i: nat)
    requires IsRun(run) && i < |run| && run[i].c.CLeave?
    ensures forall x :: x in run[i].submitted && run[i].c.cb(x) ==>
              x in run[i].freed && x !in run[i].queue && run[i].cur != Some(x)
  {
    RunInv(run, i);
  }

  function Rank(w: WorkerPc): nat {
    match w
    case WRunning => 4
    case WDone => 3
    case WFree => 2
    case WNotify => 1
    case _ => 0
  }

  /** A controller that waits for a cancelled job is woken at the latest by the worker's fourth step. */
  lemma WaitEnds(run: seq<State>, i: nat, s': State)
    requires IsRun(run) && i < |run| && run[i].c.CWaiting? && WorkerStep(run[i], s')
    ensures Rank(run[i].w) > 0
    ensures (s'.c.CWaiting? && Rank(s'.w) < Rank(run[i].w)) || s'.c.CWoken?
  {
    RunInv(run, i);
  }

  /** So a wait lasts less than four steps, unless a spurious wake-up ends it before. */
  lemma {:induction false} WaitIsShort(run: seq<State>, i: nat, j: nat)
    requires IsRun(run) && i <= j < |run| && forall k :: i <= k <= j ==> run[k].c.CWaiting?
    ensures (j - i) + Rank(run[j].w) <= Rank(run[i].w) <= 4 && j - i < 4
    decreases j
  {
    RunInv(run, i);
    if i == j {
    } else {
      WaitIsShort(run, i, j - 1);
      assert Follows(run, j);
      assert run[j - 1].c.CWaiting? && run[j].c.CWaiting?;
      WaitEnds(run, j - 1, run[j]);
      RunInv(run, j);
    }
  }

  /** No job waits for a worker that sleeps. */
  lemma NoLostJob(run: seq<State>, i: nat)
    requires IsRun(run) && i < |run| && run[i].w == WWaiting && run[i].queue != []
    ensures run[i].status != Active
  {
    RunInv(run, i);
  }

  /** While the controller is inside a call, some thread can go on without a spurious wake-up. */
  lemma NoDeadlock(run: seq<State>, i: nat)
    requires IsRun(run) && i < |run| && !run[i].c.CIdle?
    ensures var s := run[i];
            || (exists s' :: ControllerStep(s, s') && !s.c.CWaiting?)
            || (exists s' :: WorkerStep(s, s') && s.w != WWaiting)
  {
    var s := run[i];
    RunInv(run, i);
    if s.owner == ByController || (s.owner == Nobody && !s.c.CWaiting?) {
      var s' := ControllerGoesOn(s);
    } else {
      var s' := WorkerGoesOn(s);
    }
  }

  lemma ControllerGoesOn(s: State) returns (s': State)
    requires Inv(s) && !s.c.CIdle? && !s.c.CWaiting? && (s.owner == ByController || s.owner == Nobody)
    ensures ControllerStep(s, s')
  {
    match s.c
    case CAdd(job) => s' := s.(owner := ByController, c := CAppend(job));
    case CAppend(job) =>
      s' := Signal(s.(queue := s.queue + [job], submitted := s.submitted + [job], owner := Nobody, c := CIdle));
    case CRemove(cb) => s' := s.(owner := ByController, c := CSweep(cb, 0));
    case CSweep(cb, at) =>
      s' := if at >= |s.queue| then s.(c := CCurrent(cb))
            else if cb(s.queue[at]) then s.(queue := Without(s.queue, at), freed := s.freed + [s.queue[at]])
            else s.(c := CSweep(cb, at + 1));
    case CCurrent(cb) => s' := if Matched(cb, s.cur) then s.(cancel := true, c := CRecheck(cb))
      else s.(c := CLeave(cb));
    case CRecheck(cb) => s' := if s.cancel then s.(owner := Nobody, c := CWaiting(cb)) else s.(c := CLeave(cb));
    case CWoken(cb) => s' := s.(owner := ByController, c := CRecheck(cb));
    case CLeave(cb) => s' := s.(owner := Nobody, c := CIdle);
    case CStatus(status) => s' := s.(owner := ByController, c := CSetStatus(status));
    case CSetStatus(status) => s' := Signal(s.(status := status, owner := Nobody, c := CIdle));
  }

  lemma Signal(s: State) returns (s': State)
    ensures Signalled(s, s')
  {
    s' := if s.w == WWaiting then s.(w := WWoken) else if s.c.CWaiting? then s.(c := CWoken(s.c.cb)) else s;
  }

  lemma WorkerGoesOn(s: State) returns (s': State)
    requires Inv(s) && (s.owner == ByWorker || (s.owner == Nobody && s.c.CWaiting?))
    ensures WorkerStep(s, s') && s.w != WWaiting
  {
    match s.w
    case WLoop =>
      s' := if s.status != Active || s.queue == []
            then s.(owner := Nobody, w := if s.status == Stopped then WExited else WWaiting)
            else s.(queue := s.queue[1..], cur := Some(s.queue[0]), owner := Nobody, w := WRunning,
                    started := s.started + [s.queue[0]]);
    case WRunning => s' := s.(w := WDone);
    case WDone => s' := s.(owner := ByWorker, w := WFree);
    case WFree => s' := s.(freed := s.freed + [s.cur.value], cur := None, w := WNotify);
    case WNotify => s' := s.(w := WLoop); if s.cancel { s' := Signal(s.(cancel := false, w := WLoop)); }
  }
}
