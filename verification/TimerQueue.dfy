/** The timers with lazy deletion (priority_queue.cpp, priority_queue.h, timer.h).

Deleting a timer only marks it; the mark is looked at when the timer comes to the front
of the queue. The simple form it must agree with is the set of live timers. The queue is
the only owner of a timer, so a request's weak pointer is alive while the timer is queued.
 */
module TimerQueue {

  const TWO_64: nat := 0x1_0000_0000_0000_0000

  class Request {
    /** `timer_`, a weak pointer. */
    var timer: Timer?

    constructor ()
      ensures timer == null
    {
      timer := null;
    }
  }

  class Timer {
    var deleted: bool
    const key: nat
    const request: Request
    /** Whether `func_` holds a handler. */
    const hasHandler: bool

    constructor (request: Request, key: nat, hasHandler: bool)
      ensures this.request == request && this.key == key && this.hasHandler == hasHandler && !deleted
    {
      this.request, this.key, this.hasHandler := request, key, hasHandler;
      deleted := false;
    }
  }

  ghost function Elements(q: seq<Timer>): set<Timer> {
    set t | t in q
  }

  ghost predicate NoDuplicates(q: seq<Timer>) {
    forall j, k :: 0 <= j < k < |q| ==> q[j] != q[k]
  }

  /** What a `priority_queue` with `timer_comp` promises: no key is below that of the top. */
  ghost predicate LeastInFront(q: seq<Timer>) {
    forall k :: 0 <= k < |q| ==> q[0].key <= q[k].key
  }

  predicate NonDecreasing(s: seq<nat>) {
    forall j, k :: 0 <= j < k < |s| ==> s[j] <= s[k]
  }

  /** Different timers, no key above a later one. */
  ghost predicate InOrder(fired: seq<Timer>) {
    NoDuplicates(fired) && forall j, k :: 0 <= j < k < |fired| ==> fired[j].key <= fired[k].key
  }

  /** What expiry does to a set of live timers: in order of their keys those fire whose key is below the reading
      taken for them; it stops at the first reading that no live timer is below, or when none is left. */
  ghost predicate Expired(live: set<Timer>, readings: seq<nat>, fired: seq<Timer>, used: nat) {
    && InOrder(fired) && Elements(fired) <= live
    && |fired| <= used <= |readings|
    && (forall k :: 0 <= k < |fired| ==> fired[k].key < readings[k])
    && (forall k, t :: 0 <= k < |fired| && t in live - Elements(fired) ==> fired[k].key <= t.key)
    && (forall t :: t in live - Elements(fired) ==> used == |fired| + 1 && readings[|fired|] <= t.key)
    && (live == Elements(fired) ==> used == |fired|)
  }

  ghost predicate AllHandled(fired: seq<Timer>) {
    forall k :: 0 <= k < |fired| ==> fired[k].hasHandler
  }

  /** What has happened to a set of live timers while the loop still turns. */
  ghost predicate Firing(live: set<Timer>, readings: seq<nat>, fired: seq<Timer>) {
    && InOrder(fired) && Elements(fired) <= live && AllHandled(fired)
    && |fired| <= |readings|
    && (forall k :: 0 <= k < |fired| ==> fired[k].key < readings[k])
    && (forall k, t :: 0 <= k < |fired| && t in live - Elements(fired) ==> fired[k].key <= t.key)
  }

  ghost function Earlier(live: set<Timer>, key: nat): set<Timer> {
    set t | t in live && t.key < key
  }

  /** The timer's turn comes and it has expired by then: so has each before it, at the reading taken after all
      with smaller keys. */
  ghost predicate TurnComes(live: set<Timer>, readings: seq<nat>, t: Timer) {
    forall u :: u in live && u.key <= t.key ==>
      |Earlier(live, u.key)| < |readings| && u.key < readings[|Earlier(live, u.key)|]
  }

  /** The loop does not end: the turn of a timer without a handler comes, and the timer stays in front for ever. */
  ghost predicate Endless(live: set<Timer>, readings: seq<nat>) {
    exists t :: t in live && !t.hasHandler && TurnComes(live, readings, t)
  }

  class TimerQueue {
    /** `yj_pq_`, the top in front, the others in any order. */
    var queue: seq<Timer>

    ghost predicate Valid()
      reads this
    {
      NoDuplicates(queue) && LeastInFront(queue)
    }

    /** The timers that are queued and not marked. */
    ghost function Live(): set<Timer>
      reads this, queue
    {
      set t | t in queue && !t.deleted
    }

    ghost predicate HasLive(request: Request)
      reads this, queue
    {
      exists t :: t in Live() && t.request == request
    }

    /** Each request has at most one live timer, the one its weak pointer names. */
    ghost predicate OneTimerEach()
      reads this, queue, set t | t in queue :: t.request
    {
      forall t :: t in queue && !t.deleted ==> t.request.timer == t
    }

    constructor ()
      ensures Valid() && queue == [] && OneTimerEach()
    {
      queue := [];
    }

    predicate IsEmpty()
      reads this
    {
      queue == []
    }

    function Min(): Timer
      requires !IsEmpty()
      reads this
    {
      queue[0]
    }

    /** `push` */
    method Insert(t: Timer)
      requires Valid() && t !in queue
      modifies this
      ensures Valid() && Elements(queue) == Elements(old(queue)) + {t} && |queue| == |old(queue)| + 1
    {
      queue := if queue == [] || queue[0].key <= t.key then queue + [t] else [t] + queue;
    }

    /** `pop` takes the top away and brings a least one of the others to the front. */
    method Delmin()
      requires Valid() && !IsEmpty()
      modifies this
      ensures Valid() && Elements(queue) == Elements(old(queue)) - {old(queue[0])} && |queue| == |old(queue)| - 1
    {
      var rest := queue[1..];
      if rest == [] {
        queue := [];
        return;
      }
      var least := 0;
      for i := 1 to |rest|
        invariant 0 <= least < |rest|
        invariant forall k :: 0 <= k < i ==> rest[least].key <= rest[k].key
      {
        if rest[i].key < rest[least].key {
          least := i;
        }
      }
      queue := [rest[least]] + rest[..least] + rest[least + 1..];
      SameElements(rest, queue, least);
    }

    /** `add_timer`: a new timer is queued and the request's weak pointer names it. */
    method AddTimer(request: Request, now: nat, timeout: nat, hasHandler: bool) returns (t: Timer)
      requires Valid()
      modifies this, request`timer
      ensures Valid() && fresh(t) && request.timer == t && t.request == request && !t.deleted
      ensures t.key == (now + timeout) % TWO_64 && t.hasHandler == hasHandler
      ensures Elements(queue) == Elements(old(queue)) + {t} && Live() == old(Live()) + {t}
      ensures old(OneTimerEach()) ==> (OneTimerEach() <==> !old(HasLive(request)))
    {
      t := new Timer(request, (now + timeout) % TWO_64, hasHandler);
      request.timer := t;
      Insert(t);
      assert forall x :: x in queue <==> x in Elements(queue);
      assert forall x :: x in old(queue) <==> x in Elements(old(queue));
    }

    /** `handle_expire_timers` with the clock readings it takes, in order. A turn takes a timer out, or returns, or
        finds an expired timer without a handler in front: then no later turn changes anything, because readings do
        not decrease, and the loop of the source goes on for ever. Here it is left with `stuck`. */
    method HandleExpireTimers(readings: seq<nat>) returns (fired: seq<Timer>, used: nat, stuck: bool)
      requires Valid() && NonDecreasing(readings) && |queue| <= |readings|
      modifies this
      ensures Valid() && Elements(queue) <= Elements(old(queue)) && AllHandled(fired)
      ensures stuck <==> Endless(old(Live()), readings)
      ensures !stuck ==> Expired(old(Live()), readings, fired, used)
      ensures stuck ==> Firing(old(Live()), readings, fired) && used == |fired| + 1 <= |readings|
      ensures stuck ==> queue != [] && !queue[0].deleted && !queue[0].hasHandler && queue[0].key < readings[used - 1]
      ensures Live() == old(Live()) - Elements(fired)
      ensures old(OneTimerEach()) ==> OneTimerEach()
    {
      hide Expired, Endless, Firing, InOrder, NonDecreasing;
      fired, used, stuck := [], 0, false;
      ghost var all := Live();
      FiringStart(all, readings);
      while !IsEmpty()
        invariant Valid() && Elements(queue) <= Elements(old(queue)) && used == |fired| && !stuck
        invariant |queue| + used <= |readings| && forall t :: t in queue ==> t in old(queue)
        invariant Live() == all - Elements(fired) && Elements(fired) !! Elements(queue)
        invariant Firing(all, readings, fired) && AllHandled(fired)
        decreases |queue|
      {
        var t := Min();
        Members(queue);
        Members(fired);
        assert t in Elements(queue) && t !in Elements(fired);
        ghost var live := Live();
        if t.deleted {
          Delmin();
          Members(queue);
          assert Live() == live;
          continue;
        }
        var now := readings[used];
        used := used + 1;
        assert t in all - Elements(fired) && forall u :: u in all - Elements(fired) ==> t.key <= u.key;
        if t.key >= now {
          FiringStops(all, readings, fired);
          NotEndless(all, readings, fired, used);
          return;
        }
        if t.hasHandler {
          FiringNext(all, readings, fired, t);
          fired := fired + [t];
          Delmin();
          Members(queue);
          assert Live() == live - {t};
        } else {
          IsEndless(all, readings, fired, t);
          stuck := true;
          return;
        }
      }
      FiringDone(all, readings, fired);
      NotEndless(all, readings, fired, used);
    }

    /** `del_timer`: the timer the weak pointer names is marked, if it is still queued. */
    method DelTimer(request: Request)
      requires Valid()
      modifies if request.timer != null then {request.timer} else {}
      ensures Valid() && queue == old(queue)
      ensures Live() == if request.timer != null then old(Live()) - {request.timer} else old(Live())
      ensures old(OneTimerEach()) ==> OneTimerEach() && !HasLive(request)
    {
      if request.timer != null && request.timer in queue {
        request.timer.deleted := true;
      }
    }
  }

  /** Moving one element to the front keeps the elements and leaves no duplicate. */
  lemma SameElements(rest: seq<Timer>, q: seq<Timer>, least: nat)
    requires least < |rest| && q == [rest[least]] + rest[..least] + rest[least + 1..]
    ensures Elements(q) == Elements(rest) && |q| == |rest|
    ensures NoDuplicates(rest) ==> NoDuplicates(q)
  {
    forall t | t in rest
      ensures t in q
    {
      var k :| 0 <= k < |rest| && rest[k] == t;
      assert q[if k == least then 0 else if k < least then k + 1 else k] == t;
    }
    assert forall k :: 0 <= k < |q| ==> q[k] == rest[if k == 0 then least else if k <= least then k - 1 else k];
  }

  lemma FireNext(fired: seq<Timer>, t: Timer)
    requires InOrder(fired) && t !in fired && forall k :: 0 <= k < |fired| ==> fired[k].key <= t.key
    ensures InOrder(fired + [t]) && Elements(fired + [t]) == Elements(fired) + {t}
  {
    Members(fired);
    Members(fired + [t]);
  }

  lemma Members(q: seq<Timer>)
    ensures forall t :: t in q <==> t in Elements(q)
  {
  }

  /** Every live timer below the first reading fires, and none at or above the last. */
  lemma ExpiredBounds(live: set<Timer>, readings: seq<nat>, fired: seq<Timer>, used: nat)
    requires Expired(live, readings, fired, used) && NonDecreasing(readings) && used > 0
    ensures forall t :: t in live && t.key < readings[0] ==> t in fired
    ensures forall t :: t in fired ==> t in live && t.key < readings[used - 1]
  {
    Members(fired);
    forall t | t in live && t.key < readings[0]
      ensures t in fired
    {
      assert t in Elements(fired) || t in live - Elements(fired);
    }
  }

  lemma {:induction false} ElementsCount(s: seq<Timer>)
    requires NoDuplicates(s)
    ensures |Elements(s)| == |s|
    decreases |s|
  {
    if s != [] {
      ElementsCount(s[1..]);
      assert Elements(s) == {s[0]} + Elements(s[1..]);
    }
  }

  /** The live set and the readings decide how many timers fire and how often the clock is read. */
  lemma ExpiredCount(live: set<Timer>, readings: seq<nat>, f1: seq<Timer>, u1: nat, f2: seq<Timer>, u2: nat)
    requires Expired(live, readings, f1, u1) && Expired(live, readings, f2, u2)
    ensures |f1| == |f2| && u1 == u2
  {
    hide Expired;
    NoMoreFire(live, readings, f1, u1, f2, u2);
    NoMoreFire(live, readings, f2, u2, f1, u1);
    UsedIs(live, readings, f1, u1);
    UsedIs(live, readings, f2, u2);
  }

  lemma UsedIs(live: set<Timer>, readings: seq<nat>, fired: seq<Timer>, used: nat)
    requires Expired(live, readings, fired, used)
    ensures used == |fired| + if |fired| == |live| then 0 else 1
  {
    ElementsCount(fired);
    assert live == Elements(fired) + (live - Elements(fired));
    if |fired| != |live| {
      var t :| t in live - Elements(fired);
    }
  }

  lemma NoMoreFire(live: set<Timer>, readings: seq<nat>, f1: seq<Timer>, u1: nat, f2: seq<Timer>, u2: nat)
    requires Expired(live, readings, f1, u1) && Expired(live, readings, f2, u2)
    ensures |f2| <= |f1|
  {
    if |f1| < |f2| {
      var t := Pigeonhole(f2[..|f1| + 1], f1);
      EarlyKey(f2, |f1|, t);
      assert false;
    }
  }

  /** Of more different timers one is none of fewer. */
  lemma Pigeonhole(many: seq<Timer>, few: seq<Timer>) returns (t: Timer)
    requires NoDuplicates(many) && NoDuplicates(few) && |few| < |many|
    ensures t in Elements(many) && t !in Elements(few)
  {
    ElementsCount(many);
    ElementsCount(few);
    assert Elements(few) == Elements(many) * Elements(few) + (Elements(few) - Elements(many));
    assert Elements(many) == Elements(many) * Elements(few) + (Elements(many) - Elements(few));
    t :| t in Elements(many) - Elements(few);
  }

  lemma EarlyKey(fired: seq<Timer>, n: nat, t: Timer)
    requires InOrder(fired) && n < |fired| && t in Elements(fired[..n + 1])
    ensures t in Elements(fired) && t.key <= fired[n].key
  {
    var k :| 0 <= k < n + 1 && fired[..n + 1][k] == t;
    assert fired[k] == t;
  }

  // ----- the loop turn by turn -----

  lemma FiringStart(live: set<Timer>, readings: seq<nat>)
    ensures Firing(live, readings, []) && Elements([]) == {} && AllHandled([])
  {
  }

  lemma FiringNext(live: set<Timer>, readings: seq<nat>, fired: seq<Timer>, t: Timer)
    requires Firing(live, readings, fired) && |fired| < |readings|
    requires t in live - Elements(fired) && t.hasHandler && t.key < readings[|fired|]
    requires forall u :: u in live - Elements(fired) ==> t.key <= u.key
    ensures Firing(live, readings, fired + [t]) && Elements(fired + [t]) == Elements(fired) + {t}
  {
    Members(fired);
    FireNext(fired, t);
  }

  lemma FiringStops(live: set<Timer>, readings: seq<nat>, fired: seq<Timer>)
    requires Firing(live, readings, fired) && |fired| < |readings| && live != Elements(fired)
    requires forall u :: u in live - Elements(fired) ==> readings[|fired|] <= u.key
    ensures Expired(live, readings, fired, |fired| + 1) && AllHandled(fired)
  {
  }

  lemma FiringDone(live: set<Timer>, readings: seq<nat>, fired: seq<Timer>)
    requires Firing(live, readings, fired) && live - Elements(fired) == {}
    ensures Expired(live, readings, fired, |fired|) && AllHandled(fired) && live == Elements(fired)
  {
    assert live == (live - Elements(fired)) + Elements(fired);
  }

  // ----- when the loop does not end -----

  function FirstAtLeast(fired: seq<Timer>, key: nat): (n: nat)
    ensures n <= |fired| && (n < |fired| ==> key <= fired[n].key)
    ensures forall k :: 0 <= k < n ==> fired[k].key < key
  {
    if fired == [] || key <= fired[0].key then 0 else 1 + FirstAtLeast(fired[1..], key)
  }

  /** The live timers below a key that none of the others is below are the first that fired. */
  lemma EarlierFired(live: set<Timer>, fired: seq<Timer>, key: nat)
    requires InOrder(fired) && Elements(fired) <= live
    requires forall t :: t in live - Elements(fired) ==> key <= t.key
    ensures |Earlier(live, key)| == FirstAtLeast(fired, key)
  {
    var n := FirstAtLeast(fired, key);
    forall t | t in live
      ensures t in Earlier(live, key) <==> t in Elements(fired[..n])
    {
      if t in Elements(fired) {
        var k :| 0 <= k < |fired| && fired[k] == t;
        if k < n {
          assert fired[..n][k] == t;
        }
      }
    }
    assert Earlier(live, key) == Elements(fired[..n]);
    ElementsCount(fired[..n]);
  }

  lemma IsEndless(live: set<Timer>, readings: seq<nat>, fired: seq<Timer>, t: Timer)
    requires Firing(live, readings, fired) && |fired| < |readings|
    requires t in live - Elements(fired) && !t.hasHandler && t.key < readings[|fired|]
    requires forall u :: u in live - Elements(fired) ==> t.key <= u.key
    ensures Endless(live, readings)
  {
    forall u | u in live && u.key <= t.key
      ensures |Earlier(live, u.key)| < |readings| && u.key < readings[|Earlier(live, u.key)|]
    {
      EarlierFired(live, fired, u.key);
    }
    assert TurnComes(live, readings, t);
  }

  lemma {:induction false} Least(s: set<Timer>) returns (least: Timer)
    requires s != {}
    ensures least in s && forall t :: t in s ==> least.key <= t.key
    decreases |s|
  {
    least :| least in s;
    if s != {least} {
      var other := Least(s - {least});
      if other.key < least.key {
        least := other;
      }
    }
  }

  lemma NotEndless(live: set<Timer>, readings: seq<nat>, fired: seq<Timer>, used: nat)
    requires Expired(live, readings, fired, used) && NonDecreasing(readings) && AllHandled(fired)
    ensures !Endless(live, readings)
  {
    forall t | t in live && !t.hasHandler
      ensures !TurnComes(live, readings, t)
    {
      Members(fired);
      assert t in live - Elements(fired);
      var u := Least(live - Elements(fired));
      EarlierFired(live, fired, u.key);
    }
  }
}
