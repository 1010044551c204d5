/** The thread pool as a monitor (threadpool.cpp, condition.h, mutex.h).

A state machine over any number of workers, producers and callers of `stop`. One step of
one thread is one action on the shared state: taking the mutex, assigning the holder,
the test under the mutex with what follows it, releasing. A wait gives the mutex up and
falls asleep in one step; a sleeper is woken by a signal or for no reason at all.
 */
module ThreadPool {

  type Tid = n: nat | n > 0 witness 1

  type Task = nat

  datatype Option<T> = None | Some(value: T)

  datatype Role = Worker | Producer | Stopper

  /** Where a thread is. `Out`: a worker at `while (running_)`, another thread outside the pool. `Check(again)`:
      at the test, for the first time or after a wait. `Run`: a worker running what it took, a caller of `stop`
      joining the workers. */
  datatype Phase = Out | Lock | Hold | Check(again: bool) | Unhold | Wait | Asleep | Woken | Rehold | Release | Unlock | Run | Gone

  datatype Thread = Thread(role: Role, phase: Phase, task: Option<Task>)

  /** `owner` is the thread that has the pthread mutex, `holder` the field `holder_`; 0 stands for none.
      `submitted` and `taken` are the histories of `push_back` and `pop_front`. */
  datatype State = State(threads: map<Tid, Thread>, owner: nat, holder: nat, queue: seq<Task>, running: bool, max: nat,
                         submitted: seq<Task>, taken: seq<Task>)

  predicate Full(s: State) {
    s.max > 0 && |s.queue| >= s.max
  }

  predicate IsAsleep(th: map<Tid, Thread>, role: Role, t: Tid) {
    t in th && th[t].role == role && th[t].phase == Asleep
  }

  predicate SomeAsleep(th: map<Tid, Thread>, role: Role) {
    exists t :: t in th && IsAsleep(th, role, t)
  }

  /** `pthread_cond_signal`: `wake` is some sleeper, or 0 when there is none. */
  predicate Signal(th: map<Tid, Thread>, role: Role, wake: nat) {
    if SomeAsleep(th, role) then wake > 0 && IsAsleep(th, role, wake) else wake == 0
  }

  /** The thread that acts, the sleeper a signal goes to, the task a producer brings. */
  datatype Action = Action(t: Tid, wake: nat, task: Task)

  predicate AllGone(th: map<Tid, Thread>) {
    forall t :: t in th && th[t].role == Worker ==> th[t].phase == Gone
  }

  /** The action can happen. */
  predicate Enabled(s: State, a: Action) {
    a.t in s.threads &&
    var th := s.threads[a.t];
    match th.phase
    case Lock => s.owner == 0
    case Woken => s.owner == 0
    case Check(_) =>
      (match th.role
       case Worker => s.queue != [] && s.max > 0 ==> Signal(s.threads, Producer, a.wake)
       case Producer => !Full(s) ==> Signal(s.threads, Worker, a.wake)
       case Stopper => true)
    case Run => th.role == Stopper ==> AllGone(s.threads)
    case Gone => false
    case _ => true
  }

  function At(s: State, t: Tid, phase: Phase): State
    requires t in s.threads
  {
    s.(threads := s.threads[t := s.threads[t].(phase := phase)])
  }

  function Wake(th: map<Tid, Thread>, wake: nat): map<Tid, Thread>
    requires wake > 0 ==> wake in th
  {
    if wake > 0 then th[wake := th[wake].(phase := Woken)] else th
  }

  /** `pthread_cond_broadcast` on `notEmpty_`. */
  function WakeWorkers(th: map<Tid, Thread>): map<Tid, Thread> {
    map t | t in th :: if IsAsleep(th, Worker, t) then th[t].(phase := Woken) else th[t]
  }

  /** `take` once it has the mutex: sleep on an empty queue, or take the first task and signal `notFull_`. */
  function Take(s: State, a: Action): State
    requires Enabled(s, a) && s.threads[a.t].phase.Check? && s.threads[a.t].role == Worker
  {
    if s.queue == [] && s.running then At(s, a.t, Unhold)
    else if s.queue == [] then s.(threads := s.threads[a.t := Thread(Worker, Release, None)])
    else
      var woken := if s.max > 0 then Wake(s.threads, a.wake) else s.threads;
      s.(threads := woken[a.t := Thread(Worker, Release, Some(s.queue[0]))],
         queue := s.queue[1..], taken := s.taken + [s.queue[0]])
  }

  /** `run` once it has the mutex: sleep on a full queue, or put the task behind and signal `notEmpty_`. */
  function Put(s: State, a: Action): State
    requires Enabled(s, a) && s.threads[a.t].phase.Check? && s.threads[a.t].role == Producer
  {
    if Full(s) then At(s, a.t, Unhold)
    else
      var task := if s.threads[a.t].task.Some? then s.threads[a.t].task.value else a.task;
      s.(threads := Wake(s.threads, a.wake)[a.t := Thread(Producer, Release, None)],
         queue := s.queue + [task], submitted := s.submitted + [task])
  }

  /** One step. */
  function Next(s: State, a: Action): State
    requires Enabled(s, a)
  {
    var th := s.threads[a.t];
    match th.phase
    case Out =>
      (match th.role
       case Worker => At(s, a.t, if s.running then Lock else Gone)
       case Producer => s.(threads := s.threads[a.t := Thread(Producer, Lock, Some(a.task))])
       case Stopper => At(s, a.t, Lock))
    case Lock => At(s, a.t, Hold).(owner := a.t)
    case Hold => At(s, a.t, Check(false)).(holder := a.t)
    case Check(_) =>
      (match th.role
       case Worker => Take(s, a)
       case Producer => Put(s, a)
       case Stopper => At(s.(threads := WakeWorkers(s.threads)), a.t, Release).(running := false))
    case Unhold => At(s, a.t, Wait).(holder := 0)
    case Wait => At(s, a.t, Asleep).(owner := 0)
    case Asleep => At(s, a.t, Woken)
    case Woken => At(s, a.t, Rehold).(owner := a.t)
    case Rehold => At(s, a.t, Check(true)).(holder := a.t)
    case Release => At(s, a.t, Unlock).(holder := 0)
    case Unlock => At(s, a.t, if th.role == Producer then Out else Run).(owner := 0)
    case Run => At(s, a.t, if th.role == Worker then Out else Gone)
    case Gone => s
  }

  /** After `start`, with the bound set before: every thread outside, with nothing in hand. */
  predicate Init(s: State) {
    && (forall t :: t in s.threads ==> s.threads[t] == Thread(s.threads[t].role, Out, None))
    && s.owner == 0 && s.holder == 0 && s.queue == [] && s.running && s.submitted == [] && s.taken == []
  }

  // ----- the mutex and its holder -----

  /** The thread has the mutex. */
  predicate Inside(p: Phase) {
    p == Hold || p.Check? || p == Unhold || p == Wait || p == Rehold || p == Release || p == Unlock
  }

  /** The thread has assigned `holder_` and not yet cleared it. */
  predicate Holding(p: Phase) {
    p.Check? || p == Unhold || p == Release
  }

  ghost predicate LockInv(s: State) {
    && (forall t :: t in s.threads && Inside(s.threads[t].phase) ==> s.owner == t)
    && (s.owner > 0 ==> s.owner in s.threads && Inside(s.threads[s.owner].phase))
    && (forall t :: t in s.threads && Holding(s.threads[t].phase) ==> s.holder == t)
    && (s.holder > 0 ==> s.holder in s.threads && Holding(s.threads[s.holder].phase))
  }

  /** How a step changes the threads: the actor, and sleepers that wake. */
  ghost predicate OnlyWakes(th: map<Tid, Thread>, th': map<Tid, Thread>, t: Tid) {
    && th'.Keys == th.Keys
    && forall u :: u in th && u != t ==>
         th'[u] == th[u] || (th[u].phase == Asleep && th'[u] == th[u].(phase := Woken))
  }

  lemma StepOnlyWakes(s: State, a: Action)
    requires Enabled(s, a)
    ensures OnlyWakes(s.threads, Next(s, a).threads, a.t)
    ensures a.t in Next(s, a).threads && Next(s, a).threads[a.t].role == s.threads[a.t].role
    ensures Next(s, a).max == s.max
  {
  }

  lemma StepLocks(s: State, a: Action)
    requires Enabled(s, a)
    ensures var p, n := s.threads[a.t].phase, Next(s, a);
            && a.t in n.threads
            && var q := n.threads[a.t].phase;
            && (Inside(q) && !Inside(p) ==> s.owner == 0)
            && (Holding(q) ==> Inside(p))
            && n.owner == (if Inside(q) then (if Inside(p) then s.owner else a.t) else if Inside(p) then 0 else s.owner)
            && n.holder == (if Holding(q) then (if Holding(p) then s.holder else a.t) else if Holding(p) then 0 else s.holder)
  {
  }

  lemma LockInvKept(s: State, a: Action)
    requires Enabled(s, a) && LockInv(s)
    ensures LockInv(Next(s, a))
  {
    hide Next, Enabled;
    StepOnlyWakes(s, a);
    StepLocks(s, a);
  }

  /** `holder_` is 0 or names the owner of the mutex, and the assertion in `isFull` holds at every test of `run`. */
  lemma HolderSound(s: State, t: Tid)
    requires LockInv(s)
    ensures s.holder == 0 || s.holder == s.owner
    ensures t in s.threads && s.threads[t].phase.Check? ==> s.holder == t && s.owner == t
    ensures t in s.threads && s.threads[t].phase == Lock && s.owner == 0 ==> s.holder == 0
  {
  }

  // ----- tasks and the bound -----

  /** Every task submitted was taken or is queued, in the order of submission; the bound is kept. */
  predicate TaskInv(s: State) {
    && s.submitted == s.taken + s.queue
    && (s.max > 0 ==> |s.queue| <= s.max)
  }

  lemma TaskInvKept(s: State, a: Action)
    requires Enabled(s, a) && TaskInv(s)
    ensures TaskInv(Next(s, a))
  {
    if s.queue != [] {
      assert s.taken + s.queue == s.taken + [s.queue[0]] + s.queue[1..];
    }
  }

  // ----- waiting -----

  predicate Waiting(p: Phase) {
    p == Unhold || p == Wait
  }

  /** Who is about to sleep has tested under the mutex that there is reason to. */
  ghost predicate ReasonInv(s: State) {
    forall t :: t in s.threads && Waiting(s.threads[t].phase) ==>
      match s.threads[t].role
      case Worker => s.queue == [] && s.running
      case Producer => Full(s)
      case Stopper => false
  }

  /** Workers sleep before `stop` only, producers under a bound only; workers leave after `stop` only. */
  ghost predicate SleepInv(s: State) {
    && (forall t :: t in s.threads && s.threads[t].phase == Asleep ==>
          match s.threads[t].role
          case Worker => s.running
          case Producer => s.max > 0
          case Stopper => false)
    && (s.running ==> forall t :: t in s.threads && s.threads[t].role == Worker ==> s.threads[t].phase != Gone)
  }

  /** What a step does to the queue and the stop flag, it does under the mutex. */
  lemma StepShared(s: State, a: Action)
    requires Enabled(s, a)
    ensures var p, n := s.threads[a.t].phase, Next(s, a);
            && a.t in n.threads
            && (!p.Check? ==> n.queue == s.queue && n.running == s.running)
            && (n.running ==> s.running)
            && (n.running != s.running ==> p.Check? && s.threads[a.t].role == Stopper && n.queue == s.queue)
            && (Waiting(n.threads[a.t].phase) && p.Check? ==>
                  n.queue == s.queue && (s.threads[a.t].role == Worker ==> s.queue == [] && n.running)
                  && (s.threads[a.t].role == Producer ==> Full(s)) && s.threads[a.t].role != Stopper)
            && (n.threads[a.t].phase == Asleep ==> p == Wait) && (n.threads[a.t].phase == Wait ==> p == Unhold)
            && (n.threads[a.t].phase == Unhold ==> p.Check?)
            && (s.threads[a.t].role == Worker && n.threads[a.t].phase == Gone ==> !s.running)
            && (!n.running && s.running ==> forall t :: t in n.threads ==> !IsAsleep(n.threads, Worker, t))
  {
  }

  lemma ReasonInvKept(s: State, a: Action)
    requires Enabled(s, a) && LockInv(s) && ReasonInv(s)
    ensures ReasonInv(Next(s, a))
  {
    hide Next, Enabled;
    StepOnlyWakes(s, a);
    StepShared(s, a);
  }

  lemma SleepInvKept(s: State, a: Action)
    requires Enabled(s, a) && ReasonInv(s) && SleepInv(s)
    ensures SleepInv(Next(s, a))
  {
    hide Next, Enabled;
    StepOnlyWakes(s, a);
    StepShared(s, a);
  }

  // ----- wakeups -----

  /** Awakened and yet to test again. */
  predicate Awakened(p: Phase) {
    p == Woken || p == Rehold || p == Check(true)
  }

  ghost function Awake(th: map<Tid, Thread>, role: Role): set<Tid> {
    set t | t in th && th[t].role == role && Awakened(th[t].phase)
  }

  /** No lost wakeup: while a worker sleeps, each queued task has an awakened worker that will look for it,
      and while a producer sleeps, each free slot has an awakened producer. */
  ghost predicate WakeInv(s: State) {
    && (SomeAsleep(s.threads, Worker) ==> |s.queue| <= |Awake(s.threads, Worker)|)
    && (SomeAsleep(s.threads, Producer) ==> s.max - |s.queue| <= |Awake(s.threads, Producer)|)
  }

  lemma Subset(a: set<Tid>, b: set<Tid>)
    requires a <= b
    ensures |a| <= |b|
  {
    assert b == a + (b - a);
  }

  /** Who was awake still is, but perhaps for the actor, and whoever a signal woke is awake as well. */
  lemma AwakeAfter(th: map<Tid, Thread>, th': map<Tid, Thread>, t: Tid, role: Role)
    requires t in th && OnlyWakes(th, th', t) && th'[t].role == th[t].role
    ensures |Awake(th', role)| >= |Awake(th, role)| - 1
    ensures (Awakened(th[t].phase) && th[t].role == role ==> Awakened(th'[t].phase)) ==>
              |Awake(th', role)| >= |Awake(th, role)|
    ensures forall w :: IsAsleep(th, role, w) && w != t && th'[w].phase == Woken && t !in Awake(th, role) ==>
              |Awake(th', role)| >= |Awake(th, role)| + 1
    ensures forall w :: IsAsleep(th, role, w) && w != t && th'[w].phase == Woken ==>
              |Awake(th', role)| >= |Awake(th, role)|
  {
    var before, after := Awake(th, role), Awake(th', role);
    Subset(before - {t}, after);
    if Awakened(th[t].phase) && th[t].role == role ==> Awakened(th'[t].phase) {
      Subset(before, after);
    }
    forall w | IsAsleep(th, role, w) && w != t && th'[w].phase == Woken
      ensures |after| >= |before - {t}| + 1
    {
      Subset(before - {t} + {w}, after);
    }
  }

  /** A step that leaves some thread asleep found it asleep, or is the falling asleep of the actor. */
  lemma SleepersBefore(s: State, a: Action, role: Role)
    requires Enabled(s, a) && SomeAsleep(Next(s, a).threads, role)
    ensures SomeAsleep(s.threads, role) || (s.threads[a.t].phase == Wait && s.threads[a.t].role == role)
  {
    hide Next, Enabled;
    StepOnlyWakes(s, a);
    StepShared(s, a);
    var u :| u in Next(s, a).threads && IsAsleep(Next(s, a).threads, role, u);
    if u != a.t {
      assert IsAsleep(s.threads, role, u);
    }
  }

  /** The length of the queue against the awakened of one role. */
  lemma StepSignals(s: State, a: Action)
    requires Enabled(s, a)
    ensures var th, n := s.threads[a.t], Next(s, a);
            && a.t in n.threads
            && (n.queue != s.queue ==> th.phase.Check?)
            && (th.role == Worker && n.queue != s.queue ==> |n.queue| == |s.queue| - 1)
            && (th.role == Producer && n.queue != s.queue ==> |n.queue| == |s.queue| + 1)
            && (th.role == Stopper ==> n.queue == s.queue)
            && (th.role == Stopper && th.phase.Check? ==> forall t :: t in n.threads ==> !IsAsleep(n.threads, Worker, t))
            && (th.role == Worker && n.queue != s.queue && s.max > 0 && SomeAsleep(s.threads, Producer) ==>
                  a.wake > 0 && IsAsleep(s.threads, Producer, a.wake) && n.threads[a.wake].phase == Woken)
            && (th.role == Producer && n.queue != s.queue && SomeAsleep(s.threads, Worker) ==>
                  a.wake > 0 && IsAsleep(s.threads, Worker, a.wake) && n.threads[a.wake].phase == Woken)
            && (th.role == Worker && th.phase.Check? && n.queue == s.queue ==> s.queue == [])
            && (th.role == Producer && th.phase.Check? && n.queue == s.queue ==> Full(s))
            && (Awakened(th.phase) && !th.phase.Check? ==> Awakened(n.threads[a.t].phase))
  {
  }

  lemma WorkersNotLost(s: State, a: Action)
    requires Enabled(s, a) && ReasonInv(s)
    requires SomeAsleep(s.threads, Worker) ==> |s.queue| <= |Awake(s.threads, Worker)|
    ensures SomeAsleep(Next(s, a).threads, Worker) ==> |Next(s, a).queue| <= |Awake(Next(s, a).threads, Worker)|
  {
    hide Next, Enabled;
    StepOnlyWakes(s, a);
    StepSignals(s, a);
    AwakeAfter(s.threads, Next(s, a).threads, a.t, Worker);
    if SomeAsleep(Next(s, a).threads, Worker) {
      SleepersBefore(s, a, Worker);
    }
  }

  lemma ProducersNotLost(s: State, a: Action)
    requires Enabled(s, a) && ReasonInv(s) && SleepInv(s)
    requires SomeAsleep(s.threads, Producer) ==> s.max - |s.queue| <= |Awake(s.threads, Producer)|
    ensures SomeAsleep(Next(s, a).threads, Producer) ==>
              Next(s, a).max - |Next(s, a).queue| <= |Awake(Next(s, a).threads, Producer)|
  {
    hide Next, Enabled;
    StepOnlyWakes(s, a);
    StepSignals(s, a);
    AwakeAfter(s.threads, Next(s, a).threads, a.t, Producer);
    if SomeAsleep(Next(s, a).threads, Producer) {
      SleepersBefore(s, a, Producer);
    }
  }

  // ----- runs -----

  /** Only workers leave by themselves, and a caller of `run` returns to where it came from. */
  ghost predicate RoleInv(s: State) {
    forall t :: t in s.threads && s.threads[t].role == Producer ==> s.threads[t].phase != Run && s.threads[t].phase != Gone
  }

  lemma RoleInvKept(s: State, a: Action)
    requires Enabled(s, a) && RoleInv(s)
    ensures RoleInv(Next(s, a))
  {
    StepOnlyWakes(s, a);
  }

  ghost predicate Inv(s: State) {
    LockInv(s) && TaskInv(s) && ReasonInv(s) && SleepInv(s) && WakeInv(s) && RoleInv(s)
  }

  lemma InvKept(s: State, a: Action)
    requires Enabled(s, a) && Inv(s)
    ensures Inv(Next(s, a))
  {
    hide Next, Enabled, LockInv, TaskInv, ReasonInv, SleepInv, RoleInv;
    RoleInvKept(s, a);
    LockInvKept(s, a);
    TaskInvKept(s, a);
    ReasonInvKept(s, a);
    SleepInvKept(s, a);
    WorkersNotLost(s, a);
    ProducersNotLost(s, a);
  }

  /** A run: the states, and the actions between them. */
  ghost predicate IsRun(states: seq<State>, acts: seq<Action>) {
    && |states| == |acts| + 1
    && forall i :: 0 <= i < |acts| ==> Enabled(states[i], acts[i]) && states[i + 1] == Next(states[i], acts[i])
  }

  /** In every run from the start, in every state: the holder is sound, no task is lost or invented,
      the bound is kept, no wakeup is lost. */
  lemma {:induction false} RunsKeepInv(states: seq<State>, acts: seq<Action>, i: nat)
    requires IsRun(states, acts) && Init(states[0]) && i < |states|
    ensures Inv(states[i])
    decreases i
  {
    hide Inv, Enabled, Next;
    if i == 0 {
      InitInv(states[0]);
    } else {
      RunsKeepInv(states, acts, i - 1);
      InvKept(states[i - 1], acts[i - 1]);
    }
  }

  lemma InitInv(s: State)
    requires Init(s)
    ensures Inv(s)
  {
  }

  // ----- no deadlock -----

  /** A step of the pool itself: no waking for no reason, no call from outside. */
  ghost predicate PoolStep(s: State, a: Action) {
    && Enabled(s, a) && s.threads[a.t].phase != Asleep
    && (s.threads[a.t].phase == Out ==> s.threads[a.t].role == Worker)
  }

  ghost predicate CanMove(s: State) {
    exists a :: PoolStep(s, a)
  }

  /** The thread has nothing left to do. */
  ghost predicate QuietPhase(s: State, t: Tid)
    requires t in s.threads
  {
    match s.threads[t].phase
    case Asleep => true
    case Gone => true
    case Out => s.threads[t].role != Worker
    case Run => s.threads[t].role == Stopper && !AllGone(s.threads)
    case _ => false
  }

  ghost predicate Quiet(s: State) {
    forall t :: t in s.threads ==> QuietPhase(s, t)
  }

  lemma SignalExists(th: map<Tid, Thread>, role: Role) returns (wake: nat)
    ensures Signal(th, role, wake)
  {
    if SomeAsleep(th, role) {
      var t :| t in th && IsAsleep(th, role, t);
      wake := t;
    } else {
      wake := 0;
    }
  }

  lemma InsideMoves(s: State, t: Tid)
    requires t in s.threads && Inside(s.threads[t].phase)
    ensures CanMove(s)
  {
    var role := if s.threads[t].role == Worker then Producer else Worker;
    var wake := SignalExists(s.threads, role);
    assert PoolStep(s, Action(t, wake, 0));
  }

  lemma MovesOrQuiet(s: State)
    requires LockInv(s)
    ensures CanMove(s) || Quiet(s)
  {
    if s.owner > 0 {
      InsideMoves(s, s.owner);
    } else if !Quiet(s) {
      var t :| t in s.threads && !QuietPhase(s, t);
      assert PoolStep(s, Action(t, 0, 0));
    }
  }

  ghost predicate HasWorker(s: State) {
    exists t :: t in s.threads && s.threads[t].role == Worker
  }

  lemma NoneAwake(s: State, role: Role)
    requires Quiet(s)
    ensures Awake(s.threads, role) == {}
  {
  }

  /** Before `stop` the pool comes to rest only with an empty queue, every worker asleep and no producer in `run`. */
  lemma NoDeadlock(s: State)
    requires Inv(s) && s.running && HasWorker(s) && !CanMove(s)
    ensures s.queue == [] && s.taken == s.submitted
    ensures forall t :: t in s.threads && s.threads[t].role == Worker ==> s.threads[t].phase == Asleep
    ensures forall t :: t in s.threads && s.threads[t].role == Producer ==> s.threads[t].phase == Out
  {
    MovesOrQuiet(s);
    NoneAwake(s, Worker);
    NoneAwake(s, Producer);
    var w :| w in s.threads && s.threads[w].role == Worker;
    assert IsAsleep(s.threads, Worker, w);
    forall t | t in s.threads && s.threads[t].role == Producer
      ensures s.threads[t].phase == Out
    {
      assert s.threads[t].phase == Asleep ==> IsAsleep(s.threads, Producer, t);
    }
  }

  /** With every worker asleep nothing is queued, and while a producer sleeps at least `max` others are awake to fill the queue. */
  lemma AllWorkersAsleep(s: State)
    requires Inv(s) && HasWorker(s)
    requires forall t :: t in s.threads && s.threads[t].role == Worker ==> s.threads[t].phase == Asleep
    ensures s.queue == []
    ensures SomeAsleep(s.threads, Producer) ==> 0 < s.max <= |Awake(s.threads, Producer)|
  {
    var w :| w in s.threads && s.threads[w].role == Worker;
    assert IsAsleep(s.threads, Worker, w);
    assert Awake(s.threads, Worker) == {};
  }

  // ----- shutdown -----

  /** How many steps at most a worker is from leaving once `running_` is false. */
  function Rank(p: Phase): nat {
    match p
    case Gone => 0
    case Out => 1
    case Run => 2
    case Unlock => 3
    case Release => 4
    case Check(_) => 5
    case Hold => 6
    case Rehold => 6
    case Lock => 7
    case Woken => 7
    case _ => 8
  }

  /** After `stop` no worker's rank grows, and that of a worker that acts shrinks. */
  lemma ShutdownStep(s: State, a: Action)
    requires Enabled(s, a) && Inv(s) && !s.running
    ensures !Next(s, a).running && Next(s, a).threads.Keys == s.threads.Keys
    ensures forall t :: t in s.threads && s.threads[t].role == Worker ==>
              Next(s, a).threads[t].role == Worker && Rank(Next(s, a).threads[t].phase) <= Rank(s.threads[t].phase) <= 7
    ensures s.threads[a.t].role == Worker ==> Rank(Next(s, a).threads[a.t].phase) < Rank(s.threads[a.t].phase)
  {
    hide Inv, Next, Enabled;
    StoppedPhases(s);
    StepOnlyWakes(s, a);
    ActorRank(s, a);
  }

  lemma StoppedPhases(s: State)
    requires Inv(s) && !s.running
    ensures forall t :: t in s.threads && s.threads[t].role == Worker ==>
              s.threads[t].phase != Asleep && Rank(s.threads[t].phase) <= 7
  {
  }

  lemma ActorRank(s: State, a: Action)
    requires Enabled(s, a) && !s.running
    ensures !Next(s, a).running && a.t in Next(s, a).threads
    ensures s.threads[a.t].role == Worker && Rank(s.threads[a.t].phase) <= 7 ==>
              Rank(Next(s, a).threads[a.t].phase) < Rank(s.threads[a.t].phase)
  {
  }

  function StepsOf(acts: seq<Action>, t: Tid): nat {
    if acts == [] then 0 else (if acts[0].t == t then 1 else 0) + StepsOf(acts[1..], t)
  }

  lemma RunTail(states: seq<State>, acts: seq<Action>)
    requires IsRun(states, acts) && acts != []
    ensures IsRun(states[1..], acts[1..])
  {
    forall i | 0 <= i < |acts| - 1
      ensures Enabled(states[1..][i], acts[1..][i]) && states[1..][i + 1] == Next(states[1..][i], acts[1..][i])
    {
      assert Enabled(states[i + 1], acts[i + 1]) && states[i + 2] == Next(states[i + 1], acts[i + 1]);
    }
  }

  /** In every run from a state after `stop`, each worker makes at most seven more steps. */
  lemma {:induction false} ShutdownIsShort(states: seq<State>, acts: seq<Action>, t: Tid)
    requires IsRun(states, acts) && Inv(states[0]) && !states[0].running
    requires t in states[0].threads && states[0].threads[t].role == Worker
    ensures var last := states[|acts|];
            t in last.threads && StepsOf(acts, t) + Rank(last.threads[t].phase) <= Rank(states[0].threads[t].phase)
    ensures StepsOf(acts, t) <= Rank(states[0].threads[t].phase) <= 7
    decreases |acts|
  {
    hide Inv;
    StoppedPhases(states[0]);
    if acts != [] {
      hide Inv, Enabled, Next;
      assert Enabled(states[0], acts[0]) && states[1] == Next(states[0], acts[0]);
      ShutdownStep(states[0], acts[0]);
      InvKept(states[0], acts[0]);
      RunTail(states, acts);
      ShutdownIsShort(states[1..], acts[1..], t);
    }
  }

  /** A worker starts what it took. */
  predicate Starts(s: State, a: Action, t: Tid) {
    a.t == t && t in s.threads && s.threads[t].role == Worker && s.threads[t].phase == Unlock && s.threads[t].task.Some?
  }

  lemma StartRank(s: State, a: Action, t: Tid)
    requires Enabled(s, a) && Starts(s, a, t)
    ensures t in s.threads && s.threads[t].role == Worker && t in Next(s, a).threads
    ensures Next(s, a).threads[t].role == Worker && Rank(Next(s, a).threads[t].phase) == 2
  {
  }

  lemma {:induction false} StartedBefore(states: seq<State>, acts: seq<Action>, t: Tid, j: nat)
    requires IsRun(states, acts) && Inv(states[0]) && !states[0].running && j < |acts|
    requires t in states[0].threads && states[0].threads[t].role == Worker && Rank(states[0].threads[t].phase) < 3
    ensures !Starts(states[j], acts[j], t)
    decreases j
  {
    if j > 0 {
      hide Inv, Enabled, Next;
      assert Enabled(states[0], acts[0]) && states[1] == Next(states[0], acts[0]);
      ShutdownStep(states[0], acts[0]);
      InvKept(states[0], acts[0]);
      RunTail(states, acts);
      StartedBefore(states[1..], acts[1..], t, j - 1);
    }
  }

  /** After `stop` each worker starts at most one more task. */
  lemma {:induction false} AtMostOneMoreTask(states: seq<State>, acts: seq<Action>, t: Tid, i: nat, j: nat)
    requires IsRun(states, acts) && Inv(states[0]) && !states[0].running && i <= j < |acts|
    requires Starts(states[i], acts[i], t) && Starts(states[j], acts[j], t)
    ensures i == j
    decreases i
  {
    hide Inv, Enabled, Next, Starts;
    if i < j {
      assert Enabled(states[0], acts[0]) && states[1] == Next(states[0], acts[0]);
      ShutdownStep(states[0], acts[0]);
      InvKept(states[0], acts[0]);
      RunTail(states, acts);
      if i > 0 {
        AtMostOneMoreTask(states[1..], acts[1..], t, i - 1, j - 1);
      } else {
        StartRank(states[0], acts[0], t);
        StartedBefore(states[1..], acts[1..], t, j - 1);
      }
    }
  }

  /** After `stop` the pool comes to rest only when every worker has left and every call of `stop` has returned. */
  lemma ShutdownEnds(s: State)
    requires Inv(s) && !s.running && !CanMove(s)
    ensures AllGone(s.threads)
    ensures forall t :: t in s.threads && s.threads[t].role == Stopper ==> s.threads[t].phase == Out || s.threads[t].phase == Gone
  {
    MovesOrQuiet(s);
  }

  /** A call of `stop` returns after every worker has left, as it joins them. */
  lemma {:induction false} StopReturnsLast(states: seq<State>, acts: seq<Action>, t: Tid, j: nat)
    requires IsRun(states, acts) && Init(states[0]) && j <= |acts|
    requires t in states[j].threads && states[j].threads[t].role == Stopper && states[j].threads[t].phase == Gone
    ensures AllGone(states[j].threads)
    decreases j
  {
    hide Enabled, Next, AllGone;
    assert j > 0;
    var s, a := states[j - 1], acts[j - 1];
    assert Enabled(s, a) && states[j] == Next(s, a);
    StepOnlyWakes(s, a);
    if s.threads[t].phase == Gone {
      StopReturnsLast(states, acts, t, j - 1);
    } else {
      LastStepOfStop(s, a, t);
    }
    GoneStays(s, a);
  }

  lemma LastStepOfStop(s: State, a: Action, t: Tid)
    requires Enabled(s, a) && t in s.threads && s.threads[t].role == Stopper && s.threads[t].phase != Gone
    requires t in Next(s, a).threads && Next(s, a).threads[t].phase == Gone
    ensures AllGone(s.threads)
  {
    hide SomeAsleep, Signal, Take, Put;
    StepOnlyWakes(s, a);
  }

  /** Who has left has left. */
  lemma GoneStays(s: State, a: Action)
    requires Enabled(s, a) && AllGone(s.threads)
    ensures AllGone(Next(s, a).threads)
  {
    hide Next, Signal;
    StepOnlyWakes(s, a);
  }

  // ----- between two calls the pool comes to rest -----

  /** In `run` with the task in hand. */
  predicate Pending(p: Phase) {
    !(p == Out || p == Release || p == Unlock || p == Run || p == Gone)
  }

  /** How many steps at most lie before the next sleep. */
  function StepsLeft(p: Phase): nat {
    match p
    case Release => 9
    case Unlock => 8
    case Run => 7
    case Lock => 5
    case Woken => 5
    case Hold => 4
    case Rehold => 4
    case Check(_) => 3
    case Unhold => 2
    case Wait => 1
    case _ => 0
  }

  /** What a thread has still to do before it rests: its steps, and for a producer what putting its task sets off.
      Once `running_` is false a worker only has to leave. */
  function Weight(th: Thread, running: bool): nat {
    match th.role
    case Worker => if !running then Rank(th.phase) else if th.phase == Out then 6 else StepsLeft(th.phase)
    case Producer => StepsLeft(th.phase) + if Pending(th.phase) then 24 else 0
    case Stopper => if th.phase == Out then 0 else Rank(th.phase)
  }

  ghost function Total(th: map<Tid, Thread>, running: bool): nat
    decreases |th|
  {
    if th == map[] then 0 else
      var t :| t in th;
      Weight(th[t], running) + Total(th - {t}, running)
  }

  lemma {:induction false} TotalRest(th: map<Tid, Thread>, running: bool, t: Tid)
    requires t in th
    ensures Total(th, running) == Weight(th[t], running) + Total(th - {t}, running)
    decreases |th|
  {
    hide Weight;
    var u :| u in th && Total(th, running) == Weight(th[u], running) + Total(th - {u}, running);
    if u != t {
      TotalRest(th - {u}, running, t);
      TotalRest(th - {t}, running, u);
      assert th - {u} - {t} == th - {t} - {u};
    }
  }

  lemma TotalChange(th: map<Tid, Thread>, running: bool, t: Tid, now: Thread)
    requires t in th
    ensures Total(th[t := now], running) + Weight(th[t], running) == Total(th, running) + Weight(now, running)
  {
    hide Weight;
    TotalRest(th, running, t);
    TotalRest(th[t := now], running, t);
    assert th[t := now] - {t} == th - {t};
  }

  /** No thread may gain more than 7 when `running_` changes. */
  lemma {:induction false} TotalAfterStop(th: map<Tid, Thread>, th': map<Tid, Thread>)
    requires th'.Keys == th.Keys && forall t :: t in th ==> Weight(th'[t], false) <= Weight(th[t], true) + 7
    ensures Total(th', false) <= Total(th, true) + 7 * |th|
    decreases |th|
  {
    hide Weight;
    if th != map[] {
      var t :| t in th;
      TotalRest(th, true, t);
      TotalRest(th', false, t);
      TotalAfterStop(th - {t}, th' - {t});
      assert |th - {t}| == |th| - 1;
    } else {
      assert th' == map[];
    }
  }

  /** What is still to do: by the threads, for the tasks that are queued, and at `stop`. */
  ghost function Measure(s: State): nat {
    Total(s.threads, s.running) + 12 * |s.queue| + if s.running then 7 * |s.threads| else 0
  }

  /** The threads once a signal of this step is out. */
  function Signalled(s: State, a: Action): map<Tid, Thread>
    requires Enabled(s, a)
  {
    var th := s.threads[a.t];
    if th.phase.Check? && Next(s, a).queue != s.queue && (th.role == Producer || s.max > 0)
    then Wake(s.threads, a.wake) else s.threads
  }

  lemma StepSignalled(s: State, a: Action)
    requires Enabled(s, a) && Next(s, a).running == s.running
    requires !s.running ==> forall t :: t in s.threads ==> !IsAsleep(s.threads, Worker, t)
    ensures a.t in Next(s, a).threads && Next(s, a).threads == Signalled(s, a)[a.t := Next(s, a).threads[a.t]]
    ensures a.t in Signalled(s, a) && Signalled(s, a)[a.t] == s.threads[a.t]
  {
  }

  /** A signal sets one sleeper going. */
  lemma SignalledTotal(s: State, a: Action)
    requires Enabled(s, a)
    ensures Total(Signalled(s, a), s.running) <= Total(s.threads, s.running) + if Next(s, a).queue != s.queue then 5 else 0
  {
    hide Total, SomeAsleep;
    if Signalled(s, a) != s.threads {
      TotalChange(s.threads, s.running, a.wake, s.threads[a.wake].(phase := Woken));
    }
  }

  /** What the step does for the measure, apart from the sleeper it sets going. */
  ghost predicate Nearer(s: State, n: State, before: Thread, after: Thread, own: bool) {
    var w, w' := Weight(before, s.running), Weight(after, s.running);
    if own then w' + 12 * |n.queue| + (if n.queue != s.queue then 5 else 0) < w + 12 * |s.queue|
    else n.queue == s.queue && w' <= w + 29
  }

  lemma ActorNearer(s: State, a: Action)
    requires Enabled(s, a) && Next(s, a).running == s.running && a.t in Next(s, a).threads
    requires !s.running && s.threads[a.t].role == Worker ==> Rank(s.threads[a.t].phase) <= 7
    requires s.threads[a.t].role == Stopper ==> !Waiting(s.threads[a.t].phase)
    ensures Nearer(s, Next(s, a), s.threads[a.t], Next(s, a).threads[a.t], PoolStep(s, a))
  {
    hide SomeAsleep, Signal, Nearer;
    if s.threads[a.t].phase.Check? {
      match s.threads[a.t].role
      case Worker => WorkerNearer(s, a);
      case Producer => ProducerNearer(s, a);
      case Stopper => OtherNearer(s, a);
    } else {
      OtherNearer(s, a);
    }
  }

  lemma WorkerNearer(s: State, a: Action)
    requires Enabled(s, a) && Next(s, a).running == s.running && a.t in Next(s, a).threads
    requires s.threads[a.t].role == Worker && s.threads[a.t].phase.Check?
    ensures Nearer(s, Next(s, a), s.threads[a.t], Next(s, a).threads[a.t], PoolStep(s, a))
  {
    hide SomeAsleep, Signal;
  }

  lemma ProducerNearer(s: State, a: Action)
    requires Enabled(s, a) && Next(s, a).running == s.running && a.t in Next(s, a).threads
    requires s.threads[a.t].role == Producer && s.threads[a.t].phase.Check?
    ensures Nearer(s, Next(s, a), s.threads[a.t], Next(s, a).threads[a.t], PoolStep(s, a))
  {
    hide SomeAsleep, Signal;
  }

  lemma OtherNearer(s: State, a: Action)
    requires Enabled(s, a) && Next(s, a).running == s.running && a.t in Next(s, a).threads
    requires !s.threads[a.t].phase.Check? || s.threads[a.t].role == Stopper
    requires !s.running && s.threads[a.t].role == Worker ==> Rank(s.threads[a.t].phase) <= 7
    requires s.threads[a.t].role == Stopper ==> !Waiting(s.threads[a.t].phase)
    ensures Nearer(s, Next(s, a), s.threads[a.t], Next(s, a).threads[a.t], PoolStep(s, a))
  {
    hide SomeAsleep, Signal, Take, Put;
  }

  /** The step of `stop` that clears `running_`. */
  lemma StopStep(s: State, a: Action)
    requires Enabled(s, a) && Inv(s) && s.running && !Next(s, a).running
    ensures Next(s, a).queue == s.queue
    ensures Total(Next(s, a).threads, false) < Total(s.threads, true) + 7 * |s.threads|
  {
    hide Next, Enabled, Total, Inv, PoolStep;
    var n := Next(s, a);
    InvKept(s, a);
    StoppedPhases(n);
    StepOnlyWakes(s, a);
    StopperStops(s, a);
    var th := s.threads[a.t := Thread(Stopper, Release, s.threads[a.t].task)];
    TotalChange(s.threads, true, a.t, th[a.t]);
    TotalAfterStop(th, n.threads);
  }

  lemma StopperStops(s: State, a: Action)
    requires Enabled(s, a) && s.running && !Next(s, a).running
    ensures s.threads[a.t].role == Stopper && s.threads[a.t].phase.Check? && Next(s, a).queue == s.queue
    ensures a.t in Next(s, a).threads && Next(s, a).threads[a.t] == s.threads[a.t].(phase := Release)
    ensures forall t :: t in s.threads && t in Next(s, a).threads && s.threads[t].role != Worker && t != a.t ==>
              Next(s, a).threads[t] == s.threads[t]
  {
  }

  /** A step of the pool brings it nearer to rest; a call from outside or a waking for no reason costs it a
      bounded number of steps. */
  lemma StepMeasure(s: State, a: Action)
    requires Enabled(s, a) && Inv(s)
    ensures PoolStep(s, a) ==> Measure(Next(s, a)) < Measure(s)
    ensures Measure(Next(s, a)) <= Measure(s) + 29
  {
    hide Total, Next, Enabled, Weight, PoolStep, Signalled, Inv;
    StepOnlyWakes(s, a);
    StepShared(s, a);
    if Next(s, a).running == s.running {
      if !s.running {
        StoppedPhases(s);
      }
      StepSignalled(s, a);
      SignalledTotal(s, a);
      StoppersDoNotWait(s);
      ActorNearer(s, a);
      TotalChange(Signalled(s, a), s.running, a.t, Next(s, a).threads[a.t]);
    } else {
      StopStep(s, a);
    }
    assert Next(s, a).threads.Keys == s.threads.Keys;
    SameSize(Next(s, a).threads, s.threads);
  }

  lemma StoppersDoNotWait(s: State)
    requires Inv(s)
    ensures forall t :: t in s.threads && s.threads[t].role == Stopper ==> !Waiting(s.threads[t].phase)
  {
  }

  lemma SameSize(a: map<Tid, Thread>, b: map<Tid, Thread>)
    requires a.Keys == b.Keys
    ensures |a| == |b|
  {
    assert |a| == |a.Keys| && |b| == |b.Keys|;
  }

  ghost function PoolSteps(states: seq<State>, acts: seq<Action>): nat
    requires |states| == |acts| + 1
    decreases |acts|
  {
    if acts == [] then 0
    else (if PoolStep(states[0], acts[0]) then 1 else 0) + PoolSteps(states[1..], acts[1..])
  }

  /** In every run the pool makes only so many steps of its own, before `stop` and after: at most the measure of
      the first state, and 29 for every step that is not its own. */
  lemma {:induction false} PoolComesToRest(states: seq<State>, acts: seq<Action>)
    requires IsRun(states, acts) && Inv(states[0])
    ensures PoolSteps(states, acts) + Measure(states[|acts|])
         <= Measure(states[0]) + 29 * (|acts| - PoolSteps(states, acts))
    decreases |acts|
  {
    hide Measure, Next, Enabled, PoolStep, Inv;
    if acts != [] {
      assert Enabled(states[0], acts[0]) && states[1] == Next(states[0], acts[0]);
      StepMeasure(states[0], acts[0]);
      InvKept(states[0], acts[0]);
      RunTail(states, acts);
      PoolComesToRest(states[1..], acts[1..]);
    }
  }
}
