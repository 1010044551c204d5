/** When a producer can sleep on `notFull_` while every worker sleeps on `notEmpty_` (threadpool.cpp:62-123).

It can, for a while, exactly when the bound is positive and there are more producers than slots.
 */
module PoolBlocking {
  import opened ThreadPool

  ghost predicate Reaches(start: State, s: State) {
    exists states, acts :: IsRun(states, acts) && states[0] == start && states[|acts|] == s
  }

  lemma ReachesItself(s: State)
    ensures Reaches(s, s)
  {
    assert IsRun([s], []);
  }

  lemma NextReached(start: State, s: State, a: Action)
    requires Reaches(start, s) && Enabled(s, a)
    ensures Reaches(start, Next(s, a))
  {
    hide Enabled, Next;
    var states, acts :| IsRun(states, acts) && states[0] == start && states[|acts|] == s;
    assert IsRun(states + [Next(s, a)], acts + [a]);
  }

  // ----- three stretches of one thread -----

  /** The mutex is free and the pool has not been stopped. */
  predicate Free(s: State) {
    s.owner == 0 && s.holder == 0 && s.running
  }

  function Sleeping(th: Thread): Thread {
    Thread(th.role, Asleep, if th.role == Producer then Some(0) else th.task)
  }

  /** A thread outside that calls `take` or `run` with reason to sleep falls asleep. */
  lemma FallsAsleep(start: State, s: State, t: Tid)
    requires Reaches(start, s) && Free(s) && t in s.threads && s.threads[t].phase == Out
    requires if s.threads[t].role == Worker then s.queue == [] else s.threads[t].role == Producer && Full(s)
    ensures Reaches(start, s.(threads := s.threads[t := Sleeping(s.threads[t])]))
  {
    hide Reaches;
    var a := Action(t, 0, 0);
    NextReached(start, s, a);
    var s1 := Next(s, a);
    NextReached(start, s1, a);
    NextReached(start, Next(s1, a), a);
    var s3 := Next(Next(s1, a), a);
    NextReached(start, s3, a);
    NextReached(start, Next(s3, a), a);
    var s5 := Next(Next(s3, a), a);
    NextReached(start, s5, a);
    assert Next(s5, a).threads == s.threads[t := Next(s5, a).threads[t]];
  }

  /** A producer outside that finds room while no worker sleeps puts its task and is outside again. */
  lemma PutsTask(start: State, s: State, t: Tid)
    requires Reaches(start, s) && Free(s) && t in s.threads && s.threads[t] == Thread(Producer, Out, None) && !Full(s)
    requires !SomeAsleep(s.threads, Worker)
    ensures Reaches(start, s.(queue := s.queue + [0], submitted := s.submitted + [0]))
  {
    hide Reaches;
    var a := Action(t, 0, 0);
    NextReached(start, s, a);
    var s1 := Next(s, a);
    NextReached(start, s1, a);
    NextReached(start, Next(s1, a), a);
    var s3 := Next(Next(s1, a), a);
    NoneAsleepElsewhere(s.threads, t, s3.threads[t]);
    assert s3.threads == s.threads[t := s3.threads[t]];
    NextReached(start, s3, a);
    NextReached(start, Next(s3, a), a);
    var s5 := Next(Next(s3, a), a);
    NextReached(start, s5, a);
    assert Next(s5, a).threads == s.threads;
  }

  lemma NoneAsleepElsewhere(th: map<Tid, Thread>, t: Tid, now: Thread)
    requires t in th && th[t].role == Producer == now.role && !SomeAsleep(th, Worker)
    ensures !SomeAsleep(th[t := now], Worker)
  {
  }

  lemma SleeperSignal(th: map<Tid, Thread>, role: Role, wake: Tid)
    requires IsAsleep(th, role, wake)
    ensures Signal(th, role, wake)
  {
  }

  /** A worker outside takes the first task, wakes a producer, and is outside again. */
  lemma TakesTask(start: State, s: State, t: Tid, wake: Tid)
    requires Reaches(start, s) && Free(s) && t in s.threads && s.threads[t].role == Worker && s.threads[t].phase == Out
    requires s.queue != [] && s.max > 0 && IsAsleep(s.threads, Producer, wake)
    ensures Reaches(start, s.(threads := Wake(s.threads, wake)[t := Thread(Worker, Out, Some(s.queue[0]))],
                              queue := s.queue[1..], taken := s.taken + [s.queue[0]]))
  {
    hide Reaches, SomeAsleep;
    var a := Action(t, wake, 0);
    NextReached(start, s, a);
    var s1 := Next(s, a);
    NextReached(start, s1, a);
    NextReached(start, Next(s1, a), a);
    var s3 := Next(Next(s1, a), a);
    SleeperSignal(s3.threads, Producer, wake);
    NextReached(start, s3, a);
    var s4 := Next(s3, a);
    NextReached(start, s4, a);
    NextReached(start, Next(s4, a), a);
    var s6 := Next(Next(s4, a), a);
    NextReached(start, s6, a);
    assert Next(s6, a).threads == Wake(s.threads, wake)[t := Thread(Worker, Out, Some(s.queue[0]))];
  }

  // ----- many threads -----

  /** With no worker asleep one producer fills the queue. */
  lemma {:induction false} FillsQueue(start: State, s: State, t: Tid) returns (full: State)
    requires Reaches(start, s) && Free(s) && t in s.threads && s.threads[t] == Thread(Producer, Out, None)
    requires !SomeAsleep(s.threads, Worker) && |s.queue| <= s.max
    ensures Reaches(start, full) && Free(full) && full.threads == s.threads && full.max == s.max == |full.queue|
    decreases s.max - |s.queue|
  {
    hide Reaches, SomeAsleep;
    full := s;
    if |s.queue| < s.max {
      PutsTask(start, s, t);
      full := FillsQueue(start, s.(queue := s.queue + [0], submitted := s.submitted + [0]), t);
    }
  }

  /** Threads outside with the same reason to sleep all fall asleep. */
  lemma {:induction false} AllFallAsleep(start: State, s: State, role: Role, who: set<Tid>) returns (quiet: State)
    requires Reaches(start, s) && Free(s)
    requires forall t :: t in who ==> t in s.threads && s.threads[t].role == role && s.threads[t].phase == Out
    requires if role == Worker then s.queue == [] else role == Producer && Full(s)
    ensures Reaches(start, quiet) && Free(quiet) && quiet.queue == s.queue && quiet.max == s.max
    ensures quiet.threads.Keys == s.threads.Keys
    ensures forall t :: t in s.threads ==> quiet.threads[t] == if t in who then Sleeping(s.threads[t]) else s.threads[t]
    decreases |who|
  {
    hide Reaches;
    quiet := s;
    if who != {} {
      var t :| t in who;
      FallsAsleep(start, s, t);
      quiet := AllFallAsleep(start, s.(threads := s.threads[t := Sleeping(s.threads[t])]), role, who - {t});
    }
  }

  /** A worker outside takes all tasks, while more producers sleep than there are tasks: some go on sleeping. */
  lemma {:induction false} TakesAll(start: State, s: State, w: Tid, who: set<Tid>) returns (empty: State, left: Tid)
    requires Reaches(start, s) && Free(s) && w in s.threads && s.threads[w].role == Worker && s.threads[w].phase == Out
    requires s.max > 0 && |s.queue| < |who| && forall t :: t in who ==> IsAsleep(s.threads, Producer, t)
    ensures Reaches(start, empty) && Free(empty) && empty.queue == []
    ensures empty.threads.Keys == s.threads.Keys && IsAsleep(empty.threads, Producer, left)
    ensures forall t :: t in s.threads && s.threads[t].role == Worker ==>
              empty.threads[t].role == Worker && (s.threads[t].phase == Out ==> empty.threads[t].phase == Out)
    ensures forall t :: t in s.threads && s.threads[t].role != Worker ==> empty.threads[t].role != Worker
    decreases |s.queue|
  {
    hide Reaches;
    var t :| t in who;
    empty, left := s, t;
    if s.queue != [] {
      TakesTask(start, s, w, t);
      empty, left := TakesAll(start,
                              s.(threads := Wake(s.threads, t)[w := Thread(Worker, Out, Some(s.queue[0]))],
                                 queue := s.queue[1..], taken := s.taken + [s.queue[0]]),
                              w, who - {t});
    }
  }

  // ----- when it happens -----

  /** Every worker sleeps on `notEmpty_`, and a producer on `notFull_`. */
  ghost predicate Blocked(s: State) {
    && SomeAsleep(s.threads, Producer)
    && forall t :: t in s.threads && s.threads[t].role == Worker ==> s.threads[t].phase == Asleep
  }

  function OfRole(th: map<Tid, Thread>, role: Role): set<Tid> {
    set t | t in th && th[t].role == role
  }

  /** Threads keep their roles and the bound stays. */
  lemma {:induction false} RolesKept(states: seq<State>, acts: seq<Action>, i: nat)
    requires IsRun(states, acts) && i < |states|
    ensures states[i].max == states[0].max && states[i].threads.Keys == states[0].threads.Keys
    ensures forall t :: t in states[0].threads ==> states[i].threads[t].role == states[0].threads[t].role
    decreases i
  {
    if i > 0 {
      hide Enabled, Next;
      RolesKept(states, acts, i - 1);
      StepOnlyWakes(states[i - 1], acts[i - 1]);
    }
  }

  /** It takes a bound, and more producers than slots. */
  lemma OnlyThen(start: State, s: State)
    requires Init(start) && HasWorker(start) && Reaches(start, s) && Blocked(s)
    ensures 0 < start.max < |OfRole(start.threads, Producer)|
  {
    hide Init, Inv;
    var states, acts :| IsRun(states, acts) && states[0] == start && states[|acts|] == s;
    RunsKeepInv(states, acts, |acts|);
    RolesKept(states, acts, |acts|);
    var w :| w in start.threads && start.threads[w].role == Worker;
    assert s.threads[w].role == Worker;
    AllWorkersAsleep(s);
    var u :| u in s.threads && IsAsleep(s.threads, Producer, u);
    Subset(Awake(s.threads, Producer) + {u}, OfRole(start.threads, Producer));
  }

  /** And then it happens: the producers fill the queue and fall asleep, a worker empties it, waking as many
      producers as there were tasks, and the workers fall asleep. */
  lemma ThenIndeed(start: State) returns (s: State)
    requires Init(start) && HasWorker(start) && 0 < start.max < |OfRole(start.threads, Producer)|
    ensures Reaches(start, s) && s.running && Blocked(s)
  {
    hide Reaches;
    var producers, workers := OfRole(start.threads, Producer), OfRole(start.threads, Worker);
    var w :| w in start.threads && start.threads[w].role == Worker;
    var p :| p in producers;
    ReachesItself(start);
    var full := FillsQueue(start, start, p);
    var quiet := AllFallAsleep(start, full, Producer, producers);
    var empty, left := TakesAll(start, quiet, w, producers);
    s := AllFallAsleep(start, empty, Worker, workers);
    assert IsAsleep(s.threads, Producer, left);
  }

  /** From a start with a worker, a state in which every worker sleeps while a producer sleeps on `notFull_`
      comes up in some run if and only if the bound is positive and there are more producers than slots. It does
      not last: by `AllWorkersAsleep` other producers are awake then, and by `NoDeadlock` the pool can move. */
  lemma BlockedBesideSleepers(start: State)
    requires Init(start) && HasWorker(start)
    ensures (exists s :: Reaches(start, s) && Blocked(s)) <==> 0 < start.max < |OfRole(start.threads, Producer)|
  {
    hide Reaches, Blocked, OfRole, Init;
    if 0 < start.max < |OfRole(start.threads, Producer)| {
      var s := ThenIndeed(start);
    }
    forall s | Reaches(start, s) && Blocked(s)
      ensures 0 < start.max < |OfRole(start.threads, Producer)|
    {
      OnlyThen(start, s);
    }
  }

  /** One worker, two producers, one slot. */
  lemma ProducerBlockedWorkersAsleep() returns (start: State, s: State)
    ensures Init(start) && |OfRole(start.threads, Worker)| == 1 && |OfRole(start.threads, Producer)| == 2 && start.max == 1
    ensures Reaches(start, s) && s.running && Blocked(s)
  {
    hide Reaches, Blocked;
    var worker, caller := Thread(Worker, Out, None), Thread(Producer, Out, None);
    start := State(map[1 := worker, 2 := caller, 3 := caller], 0, 0, [], true, 1, [], []);
    assert OfRole(start.threads, Worker) == {1} && OfRole(start.threads, Producer) == {2, 3};
    assert start.threads[1].role == Worker;
    s := ThenIndeed(start);
  }
}
