/** The first-come-first-served lock of src/common/locking.c as a transition system, one step per atomic action.
    A waiter lives on its thread's stack, so its address is the thread itself and is reused by the next call. */
module FifoMutex {
  import opened Common

  type Thread = nat

  /** Where a thread is; each value names the action the thread performs next. */
  datatype Pc =
    | Idle                          // outside, may call fifo_mutex_lock
    | Reenter                       // released the mutex in fifo_mutex_yield, about to exchange the tail again
    | StoreNext                     // exchanged the tail, about to store old_tail->next
    | TakeMutex                     // about to lock the mutex
    | CheckHead                     // holds the mutex, about to compare head with itself
    | Waiting                       // inside pthread_cond_wait
    | Woken                         // signalled or woken spuriously, about to retake the mutex
    | SwapTail                      // about to compare-and-exchange the tail
    | SpinNext                      // not the tail: polls its own next field
    | StoreHead(next: Option<Thread>)
    | Critical                      // lock has returned; may call unlock or yield
    | YieldTail                     // yield found no head, about to load the tail
    | Signal(again: bool)           // about to signal the head, if any; `again`: lock afterwards
    | DropMutex(again: bool)

  datatype Local = Local(pc: Pc, prev: Option<Thread>, next: Option<Thread>) {
    /** The waiter structure of the thread is live. */
    predicate InLock() {
      pc.StoreNext? || pc.TakeMutex? || pc.CheckHead? || pc.Waiting? || pc.Woken? || pc.SwapTail? || pc.SpinNext?
      || pc.StoreHead?
    }
    predicate HoldsMutex() {
      pc.CheckHead? || pc.SwapTail? || pc.SpinNext? || pc.StoreHead? || InSection()
    }
    /** Between the return of lock and the release of the mutex. */
    predicate InSection() { pc.Critical? || pc.YieldTail? || pc.Signal? || pc.DropMutex? }
    /** The tail exchange back to NULL succeeded, so no later thread can link to this waiter. */
    predicate Detached() { pc == StoreHead(None) }
    /** Will still signal the head before it releases the mutex. */
    predicate WillSignal() { pc.Critical? || pc.YieldTail? || pc.Signal? }
  }

  /** The lock and its threads, with three history variables: all tail exchanges so far, all entries so far, and the
      calls between the two. */
  datatype State = State(tail: Option<Thread>, head: Option<Thread>, owner: Option<Thread>, local: map<Thread, Local>,
                         arrived: seq<Thread>, entered: seq<Thread>, queue: seq<Thread>)

  predicate Initial(s: State) {
    && s.tail == None && s.head == None && s.owner == None && s.arrived == s.entered == s.queue == []
    && forall t :: t in s.local ==> s.local[t] == Local(Idle, None, None)
  }

  function Goto(s: State, t: Thread, pc: Pc): State
    requires t in s.local
  { s.(local := s.local[t := s.local[t].(pc := pc)]) }

  // ---- fifo_mutex_lock ----

  function Exchange(s: State, t: Thread): State
    requires t in s.local
  {
    s.(tail := Some(t), local := s.local[t := Local(if s.tail == None then TakeMutex else StoreNext, s.tail, None)],
       arrived := s.arrived + [t], queue := s.queue + [t])
  }

  function LinkOldTail(s: State, t: Thread, p: Thread): State
    requires t in s.local && p in s.local
  {
    Goto(s.(local := s.local[p := s.local[p].(next := Some(t))]), t, TakeMutex)
  }

  function Compare(s: State, t: Thread): State
    requires t in s.local
  {
    if s.head == Some(t) then Goto(s, t, SwapTail) else Goto(s, t, Waiting).(owner := None)
  }

  function Detach(s: State, t: Thread): State
    requires t in s.local
  {
    if s.tail == Some(t) then Goto(s, t, StoreHead(None)).(tail := None) else Goto(s, t, SpinNext)
  }

  function Enter(s: State, t: Thread, next: Option<Thread>): State
    requires t in s.local
  {
    Goto(s, t, Critical).(head := next, entered := s.entered + [t],
                          queue := if s.queue == [] then [] else s.queue[1..])
  }

  // ---- fifo_mutex_unlock and fifo_mutex_yield ----

  function WakeHead(s: State, t: Thread, again: bool): State
    requires t in s.local
  {
    var s1 := Goto(s, t, DropMutex(again));
    if s.head.Some? && s.head.value in s1.local && s1.local[s.head.value].pc == Waiting
    then Goto(s1, s.head.value, Woken) else s1
  }

  /** Thread `t` can take a step from `s` to `s'`.  One that polls an empty `next` or waits for the mutex cannot. */
  predicate Step(s: State, t: Thread, s': State) {
    t in s.local &&
    var l := s.local[t];
    match l.pc
    case Idle => s' == Exchange(s, t)
    case Reenter => s' == Exchange(s, t)
    case StoreNext => l.prev.Some? && l.prev.value in s.local && s' == LinkOldTail(s, t, l.prev.value)
    case TakeMutex => s.owner == None
      && s' == Goto(s, t, if l.prev == None then SwapTail else CheckHead).(owner := Some(t))
    case CheckHead => s' == Compare(s, t)
    case Waiting => s' == Goto(s, t, Woken)
    case Woken => s.owner == None && s' == Goto(s, t, CheckHead).(owner := Some(t))
    case SwapTail => s' == Detach(s, t)
    case SpinNext => l.next.Some? && s' == Goto(s, t, StoreHead(l.next))
    case StoreHead(next) => s' == Enter(s, t, next)
    case Critical =>
      || s' == Goto(s, t, Signal(false))
      || s' == Goto(s, t, if s.head.Some? then Signal(true) else YieldTail)
    case YieldTail => s' == Goto(s, t, if s.tail.Some? then Signal(true) else Critical)
    case Signal(again) => s' == WakeHead(s, t, again)
    case DropMutex(again) => s' == Goto(s, t, if again then Reenter else Idle).(owner := None)
  }

  // ---- the invariant ----

  /** What holds of the call in place `i` of the queue by itself. */
  predicate Own(s: State, i: nat)
    requires i < |s.queue| && forall t :: t in s.queue ==> t in s.local
  {
    var q := s.queue;
    var l := s.local[q[i]];
    && (l.pc.SwapTail? || l.pc.SpinNext? || l.pc.StoreHead? ==> i == 0)
    && (l.pc.SpinNext? ==> |q| >= 2)
    && (l.pc.StoreHead? && l.pc.next.Some? ==> |q| >= 2 && l.pc.next.value == q[1] && s.local[q[1]].pc != StoreNext)
    && (l.pc.StoreNext? || l.pc.CheckHead? || l.pc.Waiting? || l.pc.Woken? ==> l.prev.Some?)
    && (l.pc.StoreNext? ==> i > 0)
  }

  /** How it is linked with its neighbours. */
  predicate Linked(s: State, i: nat)
    requires i < |s.queue| && forall t :: t in s.queue ==> t in s.local
  {
    var q := s.queue;
    var l := s.local[q[i]];
    && (i > 0 ==> l.prev == if s.local[q[i - 1]].Detached() then None else Some(q[i - 1]))
    && l.next == if i + 1 < |q| && !l.Detached() && s.local[q[i + 1]].pc != StoreNext then Some(q[i + 1]) else None
  }

  predicate Place(s: State, i: nat)
    requires i < |s.queue| && forall t :: t in s.queue ==> t in s.local
  { Own(s, i) && Linked(s, i) }

  /** The queue lists the calls between exchange and entry, once each. */
  ghost predicate Queued(s: State) {
    && (forall i, j :: 0 <= i < j < |s.queue| ==> s.queue[i] != s.queue[j])
    && (forall t :: t in s.queue <==> t in s.local && s.local[t].InLock())
    && s.arrived == s.entered + s.queue
  }

  ghost predicate Owned(s: State) {
    && (s.owner.Some? ==> s.owner.value in s.local)
    && (forall t :: t in s.local ==> (s.local[t].HoldsMutex() <==> s.owner == Some(t)))
  }

  predicate Ends(s: State)
    requires forall t :: t in s.queue ==> t in s.local
  {
    var q := s.queue;
    && s.tail == (if q == [] || (|q| == 1 && s.local[q[0]].Detached()) then None else Some(q[|q| - 1]))
    && s.head == (if q != [] && s.local[q[0]].prev.Some? then Some(q[0]) else None)
  }

  /** No lost wake-up: while the first call sleeps, the mutex is held by a thread that will signal it. */
  predicate SignalDue(s: State)
    requires forall t :: t in s.queue ==> t in s.local
  {
    s.queue != [] && s.local[s.queue[0]].pc == Waiting ==>
      s.owner.Some? && s.owner.value in s.local && s.local[s.owner.value].WillSignal()
  }

  ghost predicate Inv(s: State) {
    Queued(s) && Owned(s) && Ends(s) && SignalDue(s) && forall i :: 0 <= i < |s.queue| ==> Place(s, i)
  }

  lemma IndexOf(s: State, t: Thread) returns (k: nat)
    requires Inv(s) && t in s.local && s.local[t].InLock()
    ensures k < |s.queue| && s.queue[k] == t && Place(s, k)
    ensures forall i :: 0 <= i < |s.queue| && i != k ==> s.queue[i] != t
  {
    assert t in s.queue;
    k :| 0 <= k < |s.queue| && s.queue[k] == t;
  }

  /** Nothing but places within the lock, the mutex and the sleep of threads differ. */
  ghost predicate SameLinks(s: State, s': State) {
    && s'.tail == s.tail && s'.head == s.head && s'.arrived == s.arrived && s'.entered == s.entered
    && s'.queue == s.queue && s'.local.Keys == s.local.Keys
    && forall x :: x in s.local ==> SameLink(s.local[x], s'.local[x])
  }

  predicate SameLink(l: Local, l': Local) {
    && l'.prev == l.prev && l'.next == l.next && l'.InLock() == l.InLock()
    && l'.Detached() == l.Detached() && l'.pc.StoreNext? == l.pc.StoreNext?
  }

  lemma SameLinksInv(s: State, s': State)
    requires Inv(s) && SameLinks(s, s') && Owned(s') && SignalDue(s')
    requires forall i :: 0 <= i < |s.queue| ==> Own(s', i)
    ensures Inv(s')
  {
    assert Queued(s');
    forall i | 0 <= i < |s'.queue| ensures Place(s', i) {
      assert Place(s, i);
    }
  }

  lemma StepInv(s: State, t: Thread, s': State)
    requires Inv(s) && Step(s, t, s')
    ensures Inv(s')
  {
    match s.local[t].pc
    case Idle => ExchangeInv(s, t);
    case Reenter => ExchangeInv(s, t);
    case StoreNext => LinkInv(s, t);
    case TakeMutex => InLockInv(s, t, s');
    case CheckHead => InLockInv(s, t, s');
    case Waiting => InLockInv(s, t, s');
    case Woken => InLockInv(s, t, s');
    case SwapTail => DetachInv(s, t);
    case SpinNext => InLockInv(s, t, s');
    case StoreHead(next) => EnterInv(s, t, next);
    case Critical => SectionInv(s, t, s');
    case YieldTail => SectionInv(s, t, s');
    case Signal(again) => SectionInv(s, t, s');
    case DropMutex(again) => SectionInv(s, t, s');
  }

  lemma ExchangeInv(s: State, t: Thread)
    requires Inv(s) && t in s.local && !s.local[t].InLock() && !s.local[t].HoldsMutex()
    ensures Inv(Exchange(s, t))
  {
    var s', n := Exchange(s, t), |s.queue|;
    assert t !in s.queue;
    assert n == 0 ==> s.tail == None;
    forall i | 0 <= i <= n ensures Place(s', i) {
      if i < n { assert Place(s, i); } else if n > 0 { assert Place(s, n - 1); }
    }
  }

  lemma LinkInv(s: State, t: Thread)
    requires Inv(s) && t in s.local && s.local[t].pc == StoreNext
    ensures s.local[t].prev.Some? && s.local[t].prev.value in s.local
    ensures Inv(LinkOldTail(s, t, s.local[t].prev.value))
  {
    var k := IndexOf(s, t);
    assert Place(s, k - 1);
    var p := s.queue[k - 1];
    assert s.local[t].prev == Some(p) && p in s.queue && !s.local[p].Detached();
    var s' := LinkOldTail(s, t, p);
    LinkLocals(s, t, p, s');
    LinkPlaces(s, k, s');
    assert s.local[s.queue[0]].pc != StoreNext by { assert Place(s, 0); }
    LinkRest(s, t, p, s');
  }

  lemma LinkLocals(s: State, t: Thread, p: Thread, s': State)
    requires t in s.local && p in s.local && t != p && s' == LinkOldTail(s, t, p)
    ensures s'.local.Keys == s.local.Keys
    ensures forall x :: x in s.local && x != t && x != p ==> s'.local[x] == s.local[x]
    ensures s'.local[p] == s.local[p].(next := Some(t)) && s'.local[t] == s.local[t].(pc := TakeMutex)
  {
  }

  lemma LinkRest(s: State, t: Thread, p: Thread, s': State)
    requires Queued(s) && Owned(s) && Ends(s) && SignalDue(s) && s.queue != [] && t in s.queue && p in s.queue && t != p
    requires s.local[t].pc == StoreNext && s.local[s.queue[0]].pc != StoreNext
    requires s' == s.(local := s'.local) && s'.local.Keys == s.local.Keys
    requires forall x :: x in s.local && x != t && x != p ==> s'.local[x] == s.local[x]
    requires s'.local[p] == s.local[p].(next := Some(t)) && s'.local[t] == s.local[t].(pc := TakeMutex)
    ensures Queued(s') && Owned(s') && Ends(s') && SignalDue(s')
  {
  }

  lemma LinkPlaces(s: State, k: nat, s': State)
    requires Inv(s) && 0 < k < |s.queue| && s'.queue == s.queue && s'.local.Keys == s.local.Keys
    requires s.local[s.queue[k]].pc == StoreNext && !s.local[s.queue[k - 1]].Detached()
    requires s'.local[s.queue[k]] == s.local[s.queue[k]].(pc := TakeMutex)
    requires s'.local[s.queue[k - 1]] == s.local[s.queue[k - 1]].(next := Some(s.queue[k]))
    requires forall x :: x in s.local && x != s.queue[k] && x != s.queue[k - 1] ==> s'.local[x] == s.local[x]
    ensures forall i :: 0 <= i < |s.queue| ==> Place(s', i)
  {
    forall i | 0 <= i < |s.queue| ensures Place(s', i) {
      assert Place(s, i);
      assert s.queue[i] in s.queue;
    }
  }

  /** The steps inside fifo_mutex_lock that change nothing but the thread's place and the mutex. */
  predicate Inside(pc: Pc) { pc.TakeMutex? || pc.CheckHead? || pc.Waiting? || pc.Woken? || pc.SpinNext? }

  lemma InLockInv(s: State, t: Thread, s': State)
    requires Inv(s) && Step(s, t, s') && Inside(s.local[t].pc)
    ensures Inv(s')
  {
    var k := IndexOf(s, t);
    InsideSameLinks(s, t, s');
    QuietOwned(s, t, s');
    if k == 0 {
      assert s'.local[t].pc != Waiting;
    } else {
      assert s.queue[0] in s.local && s'.local[s.queue[0]] == s.local[s.queue[0]];
    }
    forall i | 0 <= i < |s.queue| ensures Own(s', i) {
      OwnKept(s, t, s', k, i);
    }
    SameLinksInv(s, s');
  }

  lemma OwnKept(s: State, t: Thread, s': State, k: nat, i: nat)
    requires (forall x :: x in s.queue ==> x in s.local) && SameLinks(s, s') && Step(s, t, s') && Inside(s.local[t].pc)
    requires k < |s.queue| && s.queue[k] == t && Place(s, k)
    requires i < |s.queue| && Place(s, i) && (|s.queue| > 1 ==> Place(s, 1)) && (k != 0 ==> s.local[t].prev.Some?)
    requires i != k ==> s.queue[i] != t
    requires k == 0 ==> (s.local[t].prev.Some? ==> s.head == Some(t))
    requires k > 0 ==> s.head != Some(t) && (s.owner == None ==> !s.local[s.queue[0]].Detached())
    ensures Own(s', i)
  {
    if i == k {
      assert s'.local[s.queue[k]].pc != s.local[t].pc;
    } else {
      assert s'.local[s.queue[i]] == s.local[s.queue[i]];
    }
  }

  lemma InsideSameLinks(s: State, t: Thread, s': State)
    requires Step(s, t, s') && Inside(s.local[t].pc)
    ensures SameLinks(s, s')
  {
  }

  lemma SectionSameLinks(s: State, t: Thread, s': State)
    requires Step(s, t, s') && s.local[t].InSection()
    ensures SameLinks(s, s')
  {
  }

  lemma QuietOwned(s: State, t: Thread, s': State)
    requires Owned(s) && Step(s, t, s') && Inside(s.local[t].pc)
    ensures Owned(s')
  {
    forall x | x in s'.local ensures s'.local[x].HoldsMutex() <==> s'.owner == Some(x) {
      if x != t { assert s'.local[x] == s.local[x]; }
    }
  }

  lemma SectionOwned(s: State, t: Thread, s': State)
    requires Owned(s) && Step(s, t, s') && s.local[t].InSection()
    ensures Owned(s')
  {
    forall x | x in s'.local ensures s'.local[x].HoldsMutex() <==> s'.owner == Some(x) {
      if x != t { assert s'.local[x].HoldsMutex() == s.local[x].HoldsMutex(); }
    }
  }

  lemma DetachInv(s: State, t: Thread)
    requires Inv(s) && t in s.local && s.local[t].pc == SwapTail
    ensures Inv(Detach(s, t))
  {
    var k := IndexOf(s, t);
    var s' := Detach(s, t);
    forall i | 0 <= i < |s.queue| ensures Place(s', i) {
      assert Place(s, i);
    }
  }

  lemma EnterQueued(s: State, t: Thread, next: Option<Thread>)
    requires Queued(s) && t in s.local && s.local[t].pc == StoreHead(next) && s.queue != [] && s.queue[0] == t
    ensures Queued(Enter(s, t, next))
  {
    var s' := Enter(s, t, next);
    assert s.queue == [t] + s'.queue;
    assert s'.entered + s'.queue == s.entered + s.queue;
    forall x ensures x in s'.queue <==> x in s.queue && x != t {
    }
    assert forall x :: x in s.local && x != t ==> s'.local[x] == s.local[x];
  }

  lemma EnterInv(s: State, t: Thread, next: Option<Thread>)
    requires Inv(s) && t in s.local && s.local[t].pc == StoreHead(next)
    ensures Inv(Enter(s, t, next)) && s.queue != [] && t == s.queue[0]
  {
    var k := IndexOf(s, t);
    var s' := Enter(s, t, next);
    EnterQueued(s, t, next);
    if |s.queue| > 1 { assert Place(s, 1); }
    forall i | 0 <= i < |s'.queue| ensures Place(s', i) { EnterPlace(s, t, next, i); }
  }

  lemma EnterPlace(s: State, t: Thread, next: Option<Thread>, i: nat)
    requires Inv(s) && t in s.local && s.local[t].pc == StoreHead(next) && s.queue != [] && s.queue[0] == t
    requires Queued(Enter(s, t, next)) && i < |Enter(s, t, next).queue|
    ensures Place(Enter(s, t, next), i)
  {
    var s' := Enter(s, t, next);
    assert Place(s, i + 1) && (i == 0 ==> Place(s, 0));
    assert s'.queue[i] == s.queue[i + 1] && (i > 0 ==> s'.queue[i - 1] == s.queue[i]);
  }

  /** The steps of fifo_mutex_unlock and fifo_mutex_yield leave the queue alone. */
  lemma SectionInv(s: State, t: Thread, s': State)
    requires Inv(s) && Step(s, t, s') && s.local[t].InSection()
    ensures Inv(s')
  {
    SectionSameLinks(s, t, s');
    SectionOwned(s, t, s');
    if s.queue != [] { SectionSignals(s, t, s'); }
    forall i | 0 <= i < |s.queue| ensures Own(s', i) { SectionOwn(s, t, s', i); }
    SameLinksInv(s, s');
  }

  lemma SectionOwn(s: State, t: Thread, s': State, i: nat)
    requires Inv(s) && Step(s, t, s') && s.local[t].InSection() && SameLinks(s, s') && i < |s.queue|
    ensures Own(s', i)
  {
    assert Place(s, i) && s.queue[i] in s.queue;
    assert s'.local[s.queue[i]].pc == s.local[s.queue[i]].pc || s.local[s.queue[i]].pc == Waiting;
    assert i == 0 && |s.queue| > 1 ==> s'.local[s.queue[1]].pc.StoreNext? == s.local[s.queue[1]].pc.StoreNext?;
  }

  lemma SectionSignals(s: State, t: Thread, s': State)
    requires (forall x :: x in s.queue ==> x in s.local) && Owned(s) && Ends(s) && SignalDue(s)
    requires Step(s, t, s') && s.local[t].InSection() && SameLinks(s, s')
    requires s.queue != [] && s.queue[0] != t && Place(s, 0)
    ensures SignalDue(s')
  {
    assert s.owner == Some(t);
  }

  // ---- runs ----

  ghost predicate Moves(s: State, s': State) { exists t :: Step(s, t, s') }

  ghost predicate Follows(run: seq<State>, i: nat)
    requires 0 < i < |run|
  { Moves(run[i - 1], run[i]) }

  ghost predicate IsRun(run: seq<State>) {
    run != [] && Initial(run[0]) && forall i :: 0 < i < |run| ==> Follows(run, i)
  }

  /** Runs start where nothing has been called, and go on by every step there is and by nothing else. */
  lemma RunGoesOn(s: State, run: seq<State>, s': State)
    requires IsRun(run)
    ensures IsRun([s]) <==> Initial(s)
    ensures IsRun(run + [s']) <==> Moves(run[|run| - 1], s')
  {
    var longer := run + [s'];
    forall i | 0 < i < |run| ensures Follows(longer, i) {
      assert Follows(run, i);
    }
    assert Follows(longer, |run|) <==> Moves(run[|run| - 1], s');
  }

  lemma {:induction false} RunInv(run: seq<State>, i: nat)
    requires IsRun(run) && i < |run|
    ensures Inv(run[i])
  {
    if i == 0 {
    } else {
      RunInv(run, i - 1);
      assert Follows(run, i);
      var t :| Step(run[i - 1], t, run[i]);
      StepInv(run[i - 1], t, run[i]);
    }
  }

  /** At no moment of any run are two threads between the return of lock and the release. */
  lemma MutualExclusion(run: seq<State>, i: nat, t: Thread, u: Thread)
    requires IsRun(run) && i < |run| && t in run[i].local && u in run[i].local
    requires run[i].local[t].InSection() && run[i].local[u].InSection()
    ensures t == u
  {
    RunInv(run, i);
  }

  /** Calls enter in the order of their tail exchanges: the k-th entry is of the k-th exchange, for good. */
  lemma FirstComeFirstServed(run: seq<State>, i: nat)
    requires IsRun(run) && i < |run|
    ensures |run[i].entered| <= |run[i].arrived| && run[i].entered == run[i].arrived[..|run[i].entered|]
    ensures i > 0 ==> run[i - 1].arrived <= run[i].arrived && run[i - 1].entered <= run[i].entered
  {
    RunInv(run, i);
    if i > 0 {
      assert Follows(run, i);
      var t :| Step(run[i - 1], t, run[i]);
      StepHistory(run[i - 1], t, run[i]);
    }
  }

  lemma StepHistory(s: State, t: Thread, s': State)
    requires Step(s, t, s')
    ensures s.arrived <= s'.arrived && s.entered <= s'.entered
  {
    match s.local[t].pc {
      case Idle => assert s'.entered == s.entered;
      case Reenter => assert s'.entered == s.entered;
      case StoreHead(next) => assert s'.arrived == s.arrived;
      case _ => assert s'.arrived == s.arrived && s'.entered == s.entered;
    }
  }

  /** The store to `old_tail->next` goes to a call still in fifo_mutex_lock, the one exchanged just before. */
  lemma StoreTargetLive(run: seq<State>, i: nat, t: Thread)
    requires IsRun(run) && i < |run| && t in run[i].local && run[i].local[t].pc == StoreNext
    ensures var s := run[i]; var p := s.local[t].prev;
            p.Some? && p.value in s.local && s.local[p.value].InLock() && s.local[p.value].next == None
            && exists k :: 0 < k < |s.queue| && s.queue[k] == t && s.queue[k - 1] == p.value
  {
    RunInv(run, i);
    var k := IndexOf(run[i], t);
    assert Place(run[i], k - 1);
    assert run[i].queue[k - 1] in run[i].queue;
  }

  /** A signal goes to a call still in fifo_mutex_lock, the next one due. */
  lemma SignalTargetLive(run: seq<State>, i: nat)
    requires IsRun(run) && i < |run| && run[i].head.Some?
    ensures var s := run[i];
            s.head.value in s.local && s.local[s.head.value].InLock() && s.queue != [] && s.queue[0] == s.head.value
  {
    RunInv(run, i);
    assert run[i].head.value in run[i].queue;
  }

  // ---- what a call comes to ----

  /** On the way into the lock: in fifo_mutex_lock, or in a fifo_mutex_yield that gives way. */
  predicate GoesIn(pc: Pc) {
    match pc
    case Idle => false
    case Critical => false
    case YieldTail => false
    case Signal(again) => again
    case DropMutex(again) => again
    case _ => true
  }

  predicate GoesOut(pc: Pc) { pc == Signal(false) || pc == DropMutex(false) }

  lemma PcAfter(s: State, t: Thread, u: Thread, s': State)
    requires Step(s, u, s') && t in s.local
    ensures t in s'.local
    ensures GoesIn(s.local[t].pc) ==> GoesIn(s'.local[t].pc) || s'.local[t].pc == Critical
    ensures GoesOut(s.local[t].pc) ==> GoesOut(s'.local[t].pc) || s'.local[t].pc == Idle
    ensures s.local[t].pc == Critical ==> s'.local[t].pc != Idle && s'.local[t].InSection()
    ensures s.local[t].pc == YieldTail ==> s'.local[t].InSection() && s'.local[t].pc != Signal(false)
  {
  }

  /** A thread that calls lock, or a yield that gives way, is not outside before it has the lock. */
  lemma {:induction false} LocksBeforeItReturns(run: seq<State>, i: nat, j: nat, t: Thread)
    requires IsRun(run) && i <= j < |run| && t in run[i].local && GoesIn(run[i].local[t].pc)
    requires forall k :: i < k <= j && t in run[k].local ==> run[k].local[t].pc != Critical
    ensures t in run[j].local && GoesIn(run[j].local[t].pc) && run[j].local[t].pc != Idle
    decreases j
  {
    if i == j {
    } else {
      LocksBeforeItReturns(run, i, j - 1, t);
      assert Follows(run, j);
      var u :| Step(run[j - 1], u, run[j]);
      PcAfter(run[j - 1], t, u, run[j]);
    }
  }

  /** A thread that calls unlock does not lock again before it is outside. */
  lemma {:induction false} UnlocksForGood(run: seq<State>, i: nat, j: nat, t: Thread)
    requires IsRun(run) && i <= j < |run| && t in run[i].local && run[i].local[t].pc == Signal(false)
    requires forall k :: i < k <= j && t in run[k].local ==> run[k].local[t].pc != Idle
    ensures t in run[j].local && GoesOut(run[j].local[t].pc)
    decreases j
  {
    if i == j {
    } else {
      UnlocksForGood(run, i, j - 1, t);
      assert Follows(run, j);
      var u :| Step(run[j - 1], u, run[j]);
      PcAfter(run[j - 1], t, u, run[j]);
    }
  }

  /** A yield gives way iff some call waits: at its look at the tail every call that is not in the queue has entered. */
  lemma YieldDecides(run: seq<State>, i: nat, t: Thread, s': State)
    requires IsRun(run) && i < |run| && t in run[i].local && Step(run[i], t, s')
    ensures run[i].queue == [] <==> run[i].entered == run[i].arrived
    ensures run[i].local[t].pc == YieldTail ==>
              s'.local[t].pc == if run[i].queue != [] then Signal(true) else Critical
    ensures run[i].local[t].pc == Critical ==>
              || s'.local[t].pc == Signal(false)
              || (s'.local[t].pc == Signal(true) && run[i].queue != [])
              || (s'.local[t].pc == YieldTail && run[i].head == None)
  {
    RunInv(run, i);
    if run[i].queue != [] { assert run[i].queue[0] in run[i].queue; }
  }

  /** Where thread `t` stands, that gave way when `n` calls had been made: it has not called again, or is behind them.
      */
  ghost predicate Behind(s: State, t: Thread, n: nat) {
    && n <= |s.arrived| && t in s.local && GoesIn(s.local[t].pc)
    && (s.local[t].InLock() ==> exists p :: n <= p < |s.arrived| && |s.entered| <= p && s.arrived[p] == t)
  }

  /** A yield that gives way lets all calls made before it enter first. */
  lemma YieldGivesWay(run: seq<State>, i: nat, j: nat, t: Thread)
    requires IsRun(run) && i < j < |run| && t in run[i].local && run[i].local[t].pc == Signal(true)
    requires forall k :: i < k < j && t in run[k].local ==> run[k].local[t].pc != Critical
    requires t in run[j].local && run[j].local[t].pc == Critical
    ensures run[i].arrived <= run[j].entered
  {
    var n := |run[i].arrived|;
    StaysBehind(run, i, j - 1, t, n);
    assert Follows(run, j);
    var u :| Step(run[j - 1], u, run[j]);
    RunInv(run, j - 1);
    LastEnters(run[j - 1], t, u, run[j], n);
    FirstComeFirstServed(run, j);
    assert run[i].arrived <= run[j].arrived by { ArrivedGrows(run, i, j); }
    assert run[j].entered == run[j].arrived[..|run[j].entered|];
  }

  lemma {:induction false} ArrivedGrows(run: seq<State>, i: nat, j: nat)
    requires IsRun(run) && i <= j < |run|
    ensures run[i].arrived <= run[j].arrived
    decreases j
  {
    if i == j {
    } else {
      ArrivedGrows(run, i, j - 1);
      FirstComeFirstServed(run, j);
    }
  }

  lemma {:induction false} StaysBehind(run: seq<State>, i: nat, j: nat, t: Thread, n: nat)
    requires IsRun(run) && i <= j < |run| && t in run[i].local && run[i].local[t].pc == Signal(true)
    requires n == |run[i].arrived|
    requires forall k :: i < k <= j && t in run[k].local ==> run[k].local[t].pc != Critical
    ensures Behind(run[j], t, n)
    decreases j
  {
    if i == j {
    } else {
      StaysBehind(run, i, j - 1, t, n);
      assert Follows(run, j);
      var u :| Step(run[j - 1], u, run[j]);
      RunInv(run, j - 1);
      PcAfter(run[j - 1], t, u, run[j]);
      BehindAfter(run[j - 1], t, u, run[j], n);
    }
  }

  lemma BehindAfter(s: State, t: Thread, u: Thread, s': State, n: nat)
    requires Inv(s) && Step(s, u, s') && Behind(s, t, n) && t in s'.local && GoesIn(s'.local[t].pc)
    ensures Behind(s', t, n)
  {
    StepHistory(s, u, s');
    if s'.local[t].InLock() {
      if s.local[t].InLock() {
        var p :| n <= p < |s.arrived| && |s.entered| <= p && s.arrived[p] == t;
        StillBehind(s, t, u, s', p);
        assert s'.arrived[p] == t;
      } else {
        CallsAgain(s, t, u, s');
        assert s'.arrived[|s.arrived|] == t;
      }
    }
  }

  lemma StillBehind(s: State, t: Thread, u: Thread, s': State, p: nat)
    requires Inv(s) && Step(s, u, s') && t in s.local && |s.entered| <= p < |s.arrived| && s.arrived[p] == t
    requires t in s'.local && GoesIn(s'.local[t].pc)
    ensures |s'.entered| <= p
  {
    if s.local[u].pc.StoreHead? { OtherEntry(s, t, u, p); } else { assert s'.entered == s.entered; }
  }

  lemma CallsAgain(s: State, t: Thread, u: Thread, s': State)
    requires Queued(s) && Step(s, u, s') && t in s.local && !s.local[t].InLock() && t in s'.local
             && s'.local[t].InLock()
    ensures s'.arrived == s.arrived + [t] && |s'.entered| <= |s.arrived|
  {
  }

  /** The one that enters is the first of the queue, so not a later one. */
  lemma OtherEntry(s: State, t: Thread, u: Thread, p: nat)
    requires Inv(s) && u in s.local && s.local[u].pc.StoreHead? && t in s.local
    requires |s.entered| <= p < |s.arrived| && s.arrived[p] == t
    ensures s.queue != [] && s.queue[0] == u && (u == t <==> p == |s.entered|)
  {
    var k := IndexOf(s, u);
    assert s.arrived[p] == s.queue[p - |s.entered|];
  }

  lemma OwnEntry(s: State, t: Thread, u: Thread, s': State)
    requires Step(s, u, s') && t in s.local && GoesIn(s.local[t].pc) && t in s'.local && s'.local[t].pc == Critical
    ensures u == t && s.local[t].pc.StoreHead? && s.local[t].InLock() && s'.entered == s.entered + [t]
  {
  }

  lemma LastEnters(s: State, t: Thread, u: Thread, s': State, n: nat)
    requires Inv(s) && Step(s, u, s') && Behind(s, t, n) && t in s'.local && s'.local[t].pc == Critical
    ensures n < |s'.entered|
  {
    OwnEntry(s, t, u, s');
    var p :| n <= p < |s.arrived| && |s.entered| <= p && s.arrived[p] == t;
    OtherEntry(s, t, u, p);
  }

  /** When every thread is outside, every call has entered and the lock is as it was at first. */
  lemma Quiescent(run: seq<State>, i: nat)
    requires IsRun(run) && i < |run| && forall t :: t in run[i].local ==> run[i].local[t].pc == Idle
    ensures var s := run[i]; s.tail == None && s.head == None && s.owner == None && s.entered == s.arrived
  {
    RunInv(run, i);
    EmptyOrNot(run[i].queue);
  }

  lemma EmptyOrNot(q: seq<Thread>)
    ensures q == [] || exists t :: t in q
  {
    if q != [] { assert q[0] in q; }
  }

  /** A step that is neither a call of lock by an idle thread nor a spurious wake-up. */
  predicate Progress(s: State, t: Thread, s': State) {
    Step(s, t, s') && s.local[t].pc != Idle && s.local[t].pc != Waiting
  }

  /** While some thread is anywhere in the three functions, some thread can go on. */
  lemma NoDeadlock(run: seq<State>, i: nat, t: Thread)
    requires IsRun(run) && i < |run| && t in run[i].local && run[i].local[t].pc != Idle
    ensures exists u, s' :: Progress(run[i], u, s')
  {
    var s := run[i];
    RunInv(run, i);
    if s.owner.Some? {
      OwnerGoesOn(s, s.owner.value);
    } else if s.queue == [] {
      assert Progress(s, t, Exchange(s, t));
    } else {
      FirstGoesOn(s);
    }
  }

  lemma OwnerGoesOn(s: State, t: Thread)
    requires Inv(s) && s.owner == Some(t)
    ensures exists u, s' :: Progress(s, u, s')
  {
    match s.local[t].pc
    case CheckHead => assert Progress(s, t, Compare(s, t));
    case SwapTail => assert Progress(s, t, Detach(s, t));
    case SpinNext =>
      var k := IndexOf(s, t);
      if s.local[t].next.Some? {
        assert Progress(s, t, Goto(s, t, StoreHead(s.local[t].next)));
      } else {
        var u := s.queue[1];
        assert u in s.queue && s.local[u].pc == StoreNext;
        LinkInv(s, u);
        assert Progress(s, u, LinkOldTail(s, u, s.local[u].prev.value));
      }
    case StoreHead(next) => assert Progress(s, t, Enter(s, t, next));
    case Critical => assert Progress(s, t, Goto(s, t, Signal(false)));
    case YieldTail => assert Progress(s, t, Goto(s, t, if s.tail.Some? then Signal(true) else Critical));
    case Signal(again) => assert Progress(s, t, WakeHead(s, t, again));
    case DropMutex(again) => assert Progress(s, t, Goto(s, t, if again then Reenter else Idle).(owner := None));
  }

  lemma FirstGoesOn(s: State)
    requires Inv(s) && s.owner == None && s.queue != []
    ensures exists u, s' :: Progress(s, u, s')
  {
    var t := s.queue[0];
    assert Place(s, 0) && t in s.queue && !s.local[t].HoldsMutex();
    if s.local[t].pc == TakeMutex {
      assert Progress(s, t, Goto(s, t, if s.local[t].prev == None then SwapTail else CheckHead).(owner := Some(t)));
    } else {
      assert Progress(s, t, Goto(s, t, CheckHead).(owner := Some(t)));
    }
  }

  // ---- the first waiter enters ----

  /** How many steps a thread, the first waiter or another, can still take before the first waiter enters. */
  function Weight(pc: Pc, first: bool): nat {
    match pc
    case Critical => 20
    case YieldTail => 19
    case Signal(_) => 18
    case DropMutex(_) => 17
    case Idle => 16
    case Reenter => 16
    case StoreNext => 15
    case TakeMutex => if first then 9 else 14
    case Woken => if first then 9 else 14
    case CheckHead => if first then 8 else 13
    case Waiting => if first then 10 else 12
    case SwapTail => 7
    case SpinNext => 6
    case StoreHead(_) => 5
  }

  function IsFirst(s: State, t: Thread): bool { s.queue != [] && s.queue[0] == t }

  function Weights(s: State): map<Thread, nat> { map t | t in s.local :: Weight(s.local[t].pc, IsFirst(s, t)) }

  ghost function Sum(m: map<Thread, nat>): nat
    decreases |m|
  {
    if m == map[] then 0 else
      var t :| t in m;
      m[t] + Sum(m - {t})
  }

  lemma {:induction false} SumRemove(m: map<Thread, nat>, t: Thread)
    requires t in m
    ensures Sum(m) == m[t] + Sum(m - {t})
    decreases |m|
  {
    var u :| u in m && Sum(m) == m[u] + Sum(m - {u});
    if u == t {
    } else {
      SumRemove(m - {u}, t);
      SumRemove(m - {t}, u);
      assert m - {u} - {t} == m - {t} - {u};
    }
  }

  lemma {:induction false} SumAtMost(m: map<Thread, nat>, m': map<Thread, nat>)
    requires m'.Keys == m.Keys && forall t :: t in m ==> m'[t] <= m[t]
    ensures Sum(m') <= Sum(m)
    decreases |m|
  {
    if m != map[] {
      var t :| t in m;
      SumRemove(m, t);
      SumRemove(m', t);
      SumAtMost(m - {t}, m' - {t});
    } else {
      assert m'.Keys == {};
    }
  }

  lemma SumLess(m: map<Thread, nat>, m': map<Thread, nat>, t: Thread)
    requires m'.Keys == m.Keys && t in m && m'[t] < m[t] && forall u :: u in m ==> m'[u] <= m[u]
    ensures Sum(m') < Sum(m)
  {
    SumRemove(m, t);
    SumRemove(m', t);
    SumAtMost(m - {t}, m' - {t});
  }

  lemma {:induction false} SumBound(m: map<Thread, nat>)
    requires forall t :: t in m ==> m[t] <= 20
    ensures Sum(m) <= 20 * |m|
    decreases |m|
  {
    if m == map[] {
    } else {
      var t :| t in m;
      SumRemove(m, t);
      SumBound(m - {t});
    }
  }

  /** A step other than a spurious wake-up. */
  predicate Earnest(s: State, t: Thread, s': State) { Step(s, t, s') && s.local[t].pc != Waiting }

  ghost predicate MovesEarnestly(s: State, s': State) { exists t :: Earnest(s, t, s') }

  ghost predicate FollowsEarnestly(run: seq<State>, i: nat)
    requires 0 < i < |run|
  { MovesEarnestly(run[i - 1], run[i]) }

  /** With a waiter in the queue every such step lets the first of them enter or uses up weight. */
  lemma StepLighter(s: State, t: Thread, s': State)
    requires Inv(s) && s.queue != [] && Earnest(s, t, s')
    ensures s'.entered == s.entered + [s.queue[0]]
            || (s'.entered == s.entered && s'.queue != [] && Sum(Weights(s')) < Sum(Weights(s)))
  {
    if s.local[t].pc.StoreHead? {
      EnterInv(s, t, s.local[t].pc.next);
    } else {
      StepWeights(s, t, s');
      SumLess(Weights(s), Weights(s'), t);
    }
  }

  lemma StepWeights(s: State, t: Thread, s': State)
    requires Inv(s) && s.queue != [] && Earnest(s, t, s') && !s.local[t].pc.StoreHead?
    ensures s'.entered == s.entered && s'.queue != [] && s'.queue[0] == s.queue[0] && s'.local.Keys == s.local.Keys
    ensures Weight(s'.local[t].pc, IsFirst(s', t)) < Weight(s.local[t].pc, IsFirst(s, t))
    ensures forall u :: u in s.local ==> Weight(s'.local[u].pc, IsFirst(s', u)) <= Weight(s.local[u].pc, IsFirst(s, u))
  {
    FirstFacts(s, t);
    assert !(s.local[t].pc == Idle || s.local[t].pc == Reenter) ==> s'.queue == s.queue;
    WeightsFall(s, t, s', s.queue[0]);
  }

  lemma WeightsFall(s: State, t: Thread, s': State, q: Thread)
    requires Earnest(s, t, s') && !s.local[t].pc.StoreHead? && s.queue != [] && s.queue[0] == q && q in s.local
    requires s'.queue != [] && s'.queue[0] == q
    requires s.local[t].pc.CheckHead? ==> (s.head == Some(t) <==> t == q)
    requires s.local[t].pc.SwapTail? || s.local[t].pc.SpinNext? ==> t == q
    requires (s.local[t].pc.YieldTail? ==> s.tail.Some?) && (s.head.Some? ==> s.head.value == q)
    ensures Weight(s'.local[t].pc, IsFirst(s', t)) < Weight(s.local[t].pc, IsFirst(s, t))
    ensures s'.local.Keys == s.local.Keys
    ensures forall u :: u in s.local ==> Weight(s'.local[u].pc, IsFirst(s', u)) <= Weight(s.local[u].pc, IsFirst(s, u))
  {
    OwnPc(s, t, s', t == q);
    OtherPcs(s, t, s', q);
  }

  lemma OwnPc(s: State, t: Thread, s': State, first: bool)
    requires Earnest(s, t, s') && !s.local[t].pc.StoreHead?
    requires s.local[t].pc.CheckHead? ==> (s.head == Some(t) <==> first)
    requires s.local[t].pc.SwapTail? || s.local[t].pc.SpinNext? ==> first
    requires s.local[t].pc.YieldTail? ==> s.tail.Some?
    ensures t in s'.local && Weight(s'.local[t].pc, first) < Weight(s.local[t].pc, first)
  {
  }

  lemma OtherPcs(s: State, t: Thread, s': State, q: Thread)
    requires Earnest(s, t, s') && (s.head.Some? ==> s.head.value == q)
    ensures s'.local.Keys == s.local.Keys
    ensures forall u :: u in s.local && u != t ==>
              s'.local[u].pc == s.local[u].pc || (u == q && s.local[u].pc == Waiting && s'.local[u].pc == Woken)
  {
  }

  /** What the weights need to know of the first waiter. */
  lemma FirstFacts(s: State, t: Thread)
    requires Inv(s) && s.queue != [] && t in s.local
    ensures var q := s.queue[0]; q in s.local && s.local[q].InLock()
    ensures s.local[t].pc.CheckHead? ==> (s.head == Some(t) <==> IsFirst(s, t))
    ensures s.local[t].pc.SwapTail? || s.local[t].pc.SpinNext? ==> IsFirst(s, t)
    ensures s.local[t].pc.YieldTail? ==> s.tail.Some?
    ensures s.head.Some? ==> s.head.value == s.queue[0]
  {
    assert Place(s, 0) && s.queue[0] in s.queue;
    if s.local[t].InLock() { var k := IndexOf(s, t); }
  }

  /** Any waiter, `k` places behind the first, enters soon: in a run without spurious wake-ups, as long as only `k`
      calls have entered since `i`, at most twenty steps per thread were made for each of them and for the waiter
      itself, and the `k` entries; and until then some thread can go on (`NoDeadlock`). */
  lemma EntersSoon(run: seq<State>, i: nat, j: nat, k: nat)
    requires IsRun(run) && i <= j < |run| && k < |run[i].queue| && |run[j].entered| <= |run[i].entered| + k
    requires forall l :: i < l <= j ==> FollowsEarnestly(run, l)
    ensures j - i <= k * (20 * |run[i].local| + 1) + 20 * |run[i].local|
  {
    var n := 20 * |run[i].local|;
    assert |run[i].local| == |run[i].local.Keys|;
    var e := Spent(run, i, j, k, n, n + 1);
    TimesAtMost(e, k, n + 1);
  }

  lemma TimesAtMost(e: nat, k: nat, m: nat)
    requires e <= k
    ensures e * m <= k * m
  {
  }

  /** What the steps since `i` and the weight left come to, of which each of the `e` entries brings `m`. */
  lemma {:induction false} Spent(run: seq<State>, i: nat, j: nat, k: nat, n: nat, m: nat) returns (e: nat)
    requires IsRun(run) && i <= j < |run| && k < |run[i].queue| && |run[j].entered| <= |run[i].entered| + k
    requires n == 20 * |run[i].local.Keys| && m == n + 1
    requires forall k :: i < k <= j ==> FollowsEarnestly(run, k)
    ensures |run[j].entered| == |run[i].entered| + e && |run[i].arrived| <= |run[j].arrived|
    ensures run[j].local.Keys == run[i].local.Keys && run[j].queue != []
    ensures (j - i) + Sum(Weights(run[j])) <= e * m + n
    decreases j
  {
    RunInv(run, i);
    if i < j {
      FirstComeFirstServed(run, j);
      var d := Spent(run, i, j - 1, k, n, m);
      RunInv(run, j - 1);
      RunInv(run, j);
      assert FollowsEarnestly(run, j);
      e := MoveSpent(run[j - 1], run[j], j - 1 - i, d, n, m);
      assert |run[j].arrived| == |run[j].entered| + |run[j].queue|;
    } else {
      e := 0;
      WeightsBound(run[i], n);
    }
  }

  lemma MoveSpent(s: State, s': State, steps: nat, d: nat, n: nat, m: nat) returns (e: nat)
    requires Inv(s) && s.queue != [] && MovesEarnestly(s, s') && n == 20 * |s.local.Keys| && m == n + 1
    requires steps + Sum(Weights(s)) <= d * m + n
    ensures |s'.entered| - |s.entered| == e - d && s'.local.Keys == s.local.Keys
    ensures steps + 1 + Sum(Weights(s')) <= e * m + n
  {
    var t :| Earnest(s, t, s');
    StepLighter(s, t, s');
    StepKeys(s, t, s');
    WeightsBound(s', n);
    if s'.entered == s.entered {
      e := d;
    } else {
      e := d + 1;
      OnceMore(d, m);
    }
  }

  lemma OnceMore(d: nat, m: nat)
    ensures (d + 1) * m == d * m + m
  {
  }

  lemma StepKeys(s: State, t: Thread, s': State)
    requires Step(s, t, s')
    ensures s'.local.Keys == s.local.Keys
  {
  }

  lemma WeightsBound(s: State, n: nat)
    requires n == 20 * |s.local.Keys|
    ensures Sum(Weights(s)) <= n
  {
    SumBound(Weights(s));
    assert Weights(s).Keys == s.local.Keys;
    assert |Weights(s)| == |Weights(s).Keys|;
  }
}
