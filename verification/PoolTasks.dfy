/** Which task is which, in every run of the pool (threadpool.cpp:62-76, 100-136).

A producer puts the task it was called with, once, after any number of waits; a worker starts the task it took
from the front, once.
 */
module PoolTasks {
  import opened ThreadPool

  /** The step of `t` that changes the queue. */
  predicate Changes(states: seq<State>, acts: seq<Action>, t: Tid, k: nat)
    requires |states| == |acts| + 1 && k < |acts|
  {
    acts[k].t == t && states[k + 1].queue != states[k].queue
  }

  // ----- producers -----

  /** The producer is inside `run` with the task `x`. */
  predicate Brings(s: State, t: Tid, x: Task) {
    t in s.threads && s.threads[t].role == Producer && s.threads[t].task == Some(x) && Pending(s.threads[t].phase)
  }

  lemma CallBrings(s: State, a: Action)
    requires Enabled(s, a) && s.threads[a.t].role == Producer && s.threads[a.t].phase == Out
    ensures Brings(Next(s, a), a.t, a.task) && Next(s, a).queue == s.queue
  {
  }

  lemma BringsOn(s: State, a: Action, t: Tid, x: Task)
    requires Enabled(s, a) && Brings(s, t, x)
    ensures a.t != t || Next(s, a).queue == s.queue ==> Brings(Next(s, a), t, x)
    ensures a.t == t && Next(s, a).queue != s.queue ==>
              && Next(s, a).queue == s.queue + [x] && Next(s, a).submitted == s.submitted + [x]
              && Next(s, a).threads[t].phase == Release
  {
    StepOnlyWakes(s, a);
  }

  lemma {:induction false} BringsUntil(states: seq<State>, acts: seq<Action>, t: Tid, i: nat, j: nat)
    requires IsRun(states, acts) && i < j <= |acts|
    requires acts[i].t == t && t in states[i].threads && states[i].threads[t].role == Producer && states[i].threads[t].phase == Out
    requires forall k :: i < k < j ==> !Changes(states, acts, t, k)
    ensures Brings(states[j], t, acts[i].task)
    decreases j
  {
    hide Enabled, Next, Brings;
    assert Enabled(states[j - 1], acts[j - 1]) && states[j] == Next(states[j - 1], acts[j - 1]);
    if j == i + 1 {
      CallBrings(states[i], acts[i]);
    } else {
      BringsUntil(states, acts, t, i, j - 1);
      assert !Changes(states, acts, t, j - 1);
      BringsOn(states[j - 1], acts[j - 1], t, acts[i].task);
    }
  }

  /** The next step of a producer that changes the queue, after any number of waits, appends exactly the task it
      was called with. */
  lemma PutsWhatItBrought(states: seq<State>, acts: seq<Action>, t: Tid, i: nat, j: nat)
    requires IsRun(states, acts) && i < j < |acts|
    requires acts[i].t == t && t in states[i].threads && states[i].threads[t].role == Producer && states[i].threads[t].phase == Out
    requires Changes(states, acts, t, j) && forall k :: i < k < j ==> !Changes(states, acts, t, k)
    ensures states[j + 1].queue == states[j].queue + [acts[i].task]
    ensures states[j + 1].submitted == states[j].submitted + [acts[i].task]
  {
    hide Enabled, Next;
    BringsUntil(states, acts, t, i, j);
    assert Enabled(states[j], acts[j]) && states[j + 1] == Next(states[j], acts[j]);
    BringsOn(states[j], acts[j], t, acts[i].task);
  }

  /** The call does not return before it has put its task. */
  lemma ReturnsAfterPut(states: seq<State>, acts: seq<Action>, t: Tid, i: nat, j: nat)
    requires IsRun(states, acts) && i < j <= |acts|
    requires acts[i].t == t && t in states[i].threads && states[i].threads[t].role == Producer && states[i].threads[t].phase == Out
    requires t in states[j].threads && states[j].threads[t].phase == Out
    ensures exists k :: i < k < j && Changes(states, acts, t, k)
  {
    hide Enabled, Next;
    if forall k :: i < k < j ==> !Changes(states, acts, t, k) {
      BringsUntil(states, acts, t, i, j);
    }
  }

  /** Having put its task a producer does nothing more to the queue before it returns. */
  lemma {:induction false} PutsOnce(states: seq<State>, acts: seq<Action>, t: Tid, k: nat, j: nat)
    requires IsRun(states, acts) && k < j < |acts| && Changes(states, acts, t, k)
    requires t in states[k].threads && states[k].threads[t].role == Producer
    requires forall l :: k < l <= j ==> t in states[l].threads && states[l].threads[t].phase != Out
    ensures t in states[j].threads && (states[j].threads[t].phase == Release || states[j].threads[t].phase == Unlock)
    ensures states[j].threads[t].role == Producer && !Changes(states, acts, t, j)
    decreases j
  {
    hide Enabled, Next;
    assert Enabled(states[j - 1], acts[j - 1]) && states[j] == Next(states[j - 1], acts[j - 1]);
    assert Enabled(states[j], acts[j]) && states[j + 1] == Next(states[j], acts[j]);
    if j > k + 1 {
      PutsOnce(states, acts, t, k, j - 1);
    }
    AfterPut(states[j - 1], acts[j - 1], t);
    AfterPut(states[j], acts[j], t);
  }

  lemma AfterPut(s: State, a: Action, t: Tid)
    requires Enabled(s, a) && t in s.threads && s.threads[t].role == Producer
    ensures t in Next(s, a).threads && Next(s, a).threads[t].role == Producer
    ensures a.t == t && Next(s, a).queue != s.queue ==> Next(s, a).threads[t].phase == Release
    ensures s.threads[t].phase == Release || s.threads[t].phase == Unlock ==>
              && (a.t == t ==> Next(s, a).queue == s.queue)
              && Next(s, a).threads[t].phase in {Release, Unlock, Out}
  {
    StepOnlyWakes(s, a);
  }

  // ----- workers -----

  /** The worker has left the test of `take` with the task `x`. */
  predicate Carries(s: State, t: Tid, x: Task) {
    && t in s.threads && s.threads[t].role == Worker && s.threads[t].task == Some(x)
    && (s.threads[t].phase == Release || s.threads[t].phase == Unlock)
  }

  /** The step of `t` that takes `x` from the front of the queue. */
  predicate Takes(states: seq<State>, acts: seq<Action>, t: Tid, k: nat, x: Task)
    requires |states| == |acts| + 1 && k < |acts|
  {
    && acts[k].t == t && states[k].queue != [] && x == states[k].queue[0]
    && states[k + 1].queue == states[k].queue[1..] && states[k + 1].taken == states[k].taken + [x]
  }

  lemma CarriesOn(s: State, a: Action, t: Tid, x: Task)
    requires Enabled(s, a) && t in s.threads
    ensures t in Next(s, a).threads && Next(s, a).threads[t].role == s.threads[t].role
    ensures Carries(s, t, x) && !(a.t == t && s.threads[t].phase == Unlock) ==> Carries(Next(s, a), t, x)
    ensures Carries(s, t, x) && a.t == t ==> Next(s, a).queue == s.queue
    ensures Carries(Next(s, a), t, x) && !Carries(s, t, x) ==>
              && a.t == t && s.queue != [] && x == s.queue[0]
              && Next(s, a).queue == s.queue[1..] && Next(s, a).taken == s.taken + [x]
    ensures a.t == t && s.threads[t].role == Worker && Next(s, a).queue != s.queue ==>
              s.queue != [] && Carries(Next(s, a), t, s.queue[0])
  {
    StepOnlyWakes(s, a);
  }

  lemma {:induction false} CarriedWasTaken(states: seq<State>, acts: seq<Action>, t: Tid, j: nat, x: Task) returns (i: nat)
    requires IsRun(states, acts) && Init(states[0]) && j <= |acts| && Carries(states[j], t, x)
    ensures i < j && Takes(states, acts, t, i, x)
    ensures forall k :: i < k < j ==> !Changes(states, acts, t, k)
    decreases j
  {
    hide Enabled, Next;
    assert j > 0;
    assert Enabled(states[j - 1], acts[j - 1]) && states[j] == Next(states[j - 1], acts[j - 1]);
    StepOnlyWakes(states[j - 1], acts[j - 1]);
    CarriesOn(states[j - 1], acts[j - 1], t, x);
    if Carries(states[j - 1], t, x) {
      i := CarriedWasTaken(states, acts, t, j - 1, x);
    } else {
      i := j - 1;
    }
  }

  /** What a worker starts is what its own last take removed from the front of the queue, whatever the bound. */
  lemma StartsWhatItTook(states: seq<State>, acts: seq<Action>, t: Tid, j: nat)
    requires IsRun(states, acts) && Init(states[0]) && j < |acts| && Starts(states[j], acts[j], t)
    ensures exists i: nat :: i < j && Takes(states, acts, t, i, states[j].threads[t].task.value)
                        && forall k :: i < k < j ==> !Changes(states, acts, t, k)
  {
    hide Init;
    var i := CarriedWasTaken(states, acts, t, j, states[j].threads[t].task.value);
  }

  lemma {:induction false} CarriesUntil(states: seq<State>, acts: seq<Action>, t: Tid, i: nat, j: nat)
    requires IsRun(states, acts) && i < j <= |acts| && Changes(states, acts, t, i)
    requires t in states[i].threads && states[i].threads[t].role == Worker
    requires forall k :: i < k < j && acts[k].t == t && t in states[k].threads ==> states[k].threads[t].phase != Unlock
    ensures states[i].queue != [] && Carries(states[j], t, states[i].queue[0])
    decreases j
  {
    hide Enabled, Next;
    assert Enabled(states[i], acts[i]) && states[i + 1] == Next(states[i], acts[i]);
    CarriesOn(states[i], acts[i], t, 0);
    if j > i + 1 {
      assert Enabled(states[j - 1], acts[j - 1]) && states[j] == Next(states[j - 1], acts[j - 1]);
      CarriesUntil(states, acts, t, i, j - 1);
      CarriesOn(states[j - 1], acts[j - 1], t, states[i].queue[0]);
    }
  }

  /** And what a worker takes it starts, when it leaves the mutex. */
  lemma TakenIsStarted(states: seq<State>, acts: seq<Action>, t: Tid, i: nat, j: nat)
    requires IsRun(states, acts) && i < j < |acts| && Changes(states, acts, t, i)
    requires t in states[i].threads && states[i].threads[t].role == Worker
    requires acts[j].t == t && t in states[j].threads && states[j].threads[t].phase == Unlock
    requires forall k :: i < k < j && acts[k].t == t && t in states[k].threads ==> states[k].threads[t].phase != Unlock
    ensures states[i].queue != [] && Takes(states, acts, t, i, states[i].queue[0])
    ensures Starts(states[j], acts[j], t) && states[j].threads[t].task == Some(states[i].queue[0])
  {
    hide Enabled, Next;
    CarriesUntil(states, acts, t, i, j);
    assert Enabled(states[i], acts[i]) && states[i + 1] == Next(states[i], acts[i]);
    TakeStep(states[i], acts[i]);
  }

  lemma TakeStep(s: State, a: Action)
    requires Enabled(s, a) && s.threads[a.t].role == Worker && Next(s, a).queue != s.queue
    ensures s.queue != [] && Next(s, a).queue == s.queue[1..] && Next(s, a).taken == s.taken + [s.queue[0]]
  {
  }
}
