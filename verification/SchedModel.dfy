/**
  The scheduler's choice as a property of the run queue, and what it means for
  a task that waits: it is boosted to the top priority and then dispatched
  within one turn of the queue.
 */
module SchedModel {
  import opened Common

  const PRIO_MIN: int := -20
  const PRIO_MAX: int := 19
  const STARVE_THRESHOLD: nat := 200

  datatype State = Ready | Running | Sleeping | Zombie

  /** The fields of struct task that decide scheduling. */
  datatype Info = Info(state: State, priority: int, staticPriority: int, idle: bool, lastRun: nat)

  predicate InBounds(q: seq<Info>)
  {
    forall i :: 0 <= i < |q| ==> PRIO_MIN <= q[i].priority <= PRIO_MAX && PRIO_MIN <= q[i].staticPriority <= PRIO_MAX
  }

  /** Task i may be dispatched after the task at prev (-1: a task outside the queue). */
  predicate Candidate(q: seq<Info>, prev: int, i: int)
  {
    0 <= i < |q| && i != prev && q[i].state == Ready && !q[i].idle
  }

  /** Steps from position a forward to position b of a ring of n. */
  function Distance(a: int, b: int, n: nat): int
  {
    if b > a then b - a else b - a + n
  }

  /** r has the best priority of all candidates, and is the first such after prev, going round. */
  ghost predicate IsPick(q: seq<Info>, prev: int, r: int)
  {
    && Candidate(q, prev, r)
    && forall i :: Candidate(q, prev, i) ==>
         || q[r].priority < q[i].priority
         || (q[r].priority == q[i].priority && Distance(prev, r, |q|) <= Distance(prev, i, |q|))
  }

  lemma PickUnique(q: seq<Info>, prev: int, r: int, s: int)
    requires -1 <= prev < |q| && IsPick(q, prev, r) && IsPick(q, prev, s)
    ensures r == s
  {
  }

  /** A waiting task of top priority comes closer with every dispatch that is not its own. */
  lemma PickComesCloser(q: seq<Info>, prev: int, r: int, t: int)
    requires InBounds(q) && -1 <= prev < |q| && IsPick(q, prev, r)
    requires Candidate(q, prev, t) && q[t].priority == PRIO_MIN && r != t
    ensures Distance(r, t, |q|) < Distance(prev, t, |q|)
  {
  }

  /** sched_boost_starved on one task. */
  function Boosted(x: Info, now: nat): Info
  {
    if Starved(x, now) && x.priority > PRIO_MIN then x.(priority := x.priority - 1) else x
  }

  predicate Starved(x: Info, now: nat)
  {
    x.state == Ready && !x.idle && Elapsed(now, x.lastRun) >= STARVE_THRESHOLD
  }

  /** Ticks from last to now, in 64-bit arithmetic. */
  function Elapsed(now: nat, last: nat): nat
  {
    (now - last) % U64
  }

  // ---------- runs ----------

  /** The queue, and the position of the running task in it. */
  datatype Sys = Sys(q: seq<Info>, cur: int)

  datatype Event = Schedule | Boost(now: nat) | Other

  /**
    One step of a run with fixed membership, as far as waiting task t is
    concerned: the scheduler does its part, everything else about the other
    tasks (sleeping, waking, exiting, priorities, ticks) is arbitrary.
   */
  ghost predicate Step(s: Sys, e: Event, s': Sys, t: int)
    requires 0 <= t < |s.q|
  {
    && |s'.q| == |s.q| && InBounds(s'.q)
    && match e
       case Schedule => IsPick(s.q, s.cur, s'.cur) && (s'.cur != t ==> s'.q[t] == s.q[t])
       case Boost(now) => s'.cur == s.cur && s'.q[t] == Boosted(s.q[t], now)
       case Other => s'.cur == s.cur && s'.q[t] == s.q[t]
  }

  /** schedule() dispatching the task at k in place of the one at p. */
  function Dispatched(q: seq<Info>, p: int, k: int, now: nat): (r: seq<Info>)
    requires -1 <= p < |q| && 0 <= k < |q|
    ensures |r| == |q|
  {
    var q1 := if p >= 0 && q[p].state == Running then q[p := q[p].(state := Ready)] else q;
    q1[k := q1[k].(state := Running, lastRun := now, priority := q1[k].staticPriority)]
  }

  /** Every dispatch is a Schedule step for every task that keeps waiting. */
  lemma DispatchIsStep(q: seq<Info>, p: int, k: int, now: nat, t: int)
    requires InBounds(q) && -1 <= p < |q| && IsPick(q, p, k) && Candidate(q, p, t)
    ensures Step(Sys(q, p), Schedule, Sys(Dispatched(q, p, k, now), k), t)
    ensures t != k ==> Candidate(Dispatched(q, p, k, now), k, t)
  {
  }

  /** A run in which t is ready and waiting throughout. */
  ghost predicate WaitingRun(run: seq<Sys>, events: seq<Event>, t: int)
  {
    && |run| == |events| + 1
    && (forall i :: 0 <= i < |run| ==>
          && 0 <= t < |run[i].q| == |run[0].q| && InBounds(run[i].q)
          && -1 <= run[i].cur < |run[i].q| && Candidate(run[i].q, run[i].cur, t))
    && (forall i :: 0 <= i < |events| ==> Step(run[i], events[i], run[i + 1], t))
  }

  lemma LongerRun(run: seq<Sys>, events: seq<Event>, s: Sys, e: Event, t: int)
    requires WaitingRun(run, events, t) && Step(run[|events|], e, s, t)
    requires -1 <= s.cur < |s.q| && Candidate(s.q, s.cur, t)
    ensures WaitingRun(run + [s], events + [e], t)
  {
    var run', events' := run + [s], events + [e];
    forall i | 0 <= i < |events'|
      ensures Step(run'[i], events'[i], run'[i + 1], t)
    {
      if i < |events| {
        assert Step(run[i], events[i], run[i + 1], t);
      }
    }
  }

  /** Dispatches among the first n events. */
  function Dispatches(events: seq<Event>): nat
  {
    if events == [] then 0
    else Dispatches(events[..|events| - 1]) + if events[|events| - 1].Schedule? then 1 else 0
  }

  /** Boost scans that find t, last run at tick last, starved. */
  function StarvedScans(events: seq<Event>, last: nat): nat
  {
    if events == [] then 0
    else
      var e := events[|events| - 1];
      StarvedScans(events[..|events| - 1], last) + if e.Boost? && Elapsed(e.now, last) >= STARVE_THRESHOLD then 1 else 0
  }

  lemma {:induction false} PriorityFalls(run: seq<Sys>, events: seq<Event>, t: int)
    requires WaitingRun(run, events, t)
    ensures run[|events|].q[t].lastRun == run[0].q[t].lastRun
    ensures run[|events|].q[t].priority <= run[0].q[t].priority
    ensures var p := run[0].q[t].priority - StarvedScans(events, run[0].q[t].lastRun);
            run[|events|].q[t].priority == if p > PRIO_MIN then p else PRIO_MIN
  {
    if events != [] {
      var n := |events| - 1;
      assert Step(run[n], events[n], run[n + 1], t);
      PriorityFalls(run[..n + 1], events[..n], t);
    }
  }

  lemma {:induction false} TurnsLeft(run: seq<Sys>, events: seq<Event>, t: int)
    requires WaitingRun(run, events, t) && run[0].q[t].priority == PRIO_MIN
    ensures run[|events|].q[t].priority == PRIO_MIN
    ensures Dispatches(events) + Distance(run[|events|].cur, t, |run[0].q|) <= Distance(run[0].cur, t, |run[0].q|)
  {
    if events != [] {
      var n := |events| - 1;
      assert Step(run[n], events[n], run[n + 1], t);
      TurnsLeft(run[..n + 1], events[..n], t);
      if events[n].Schedule? {
        PickComesCloser(run[n].q, run[n].cur, run[n + 1].cur, t);
      }
    }
  }

  /**
    Bounded starvation.  Once a waiting task has been found starved by as many
    scans as its priority is above the best, fewer dispatches follow than the
    queue has tasks, or exactly as many when the first was from outside the queue.
   */
  lemma BoundedStarvation(run: seq<Sys>, events: seq<Event>, t: int, k: nat)
    requires WaitingRun(run, events, t) && k <= |events|
    requires StarvedScans(events[..k], run[0].q[t].lastRun) >= run[0].q[t].priority - PRIO_MIN
    ensures run[k].q[t].priority == PRIO_MIN
    ensures Dispatches(events[k..]) < Distance(run[k].cur, t, |run[0].q|) <= |run[0].q|
  {
    assert WaitingRun(run[..k + 1], events[..k], t);
    PriorityFalls(run[..k + 1], events[..k], t);
    assert forall i :: 0 <= i < |events[k..]| ==> Step(run[k..][i], events[k..][i], run[k..][i + 1], t) by {
      forall i | 0 <= i < |events[k..]| ensures Step(run[k..][i], events[k..][i], run[k..][i + 1], t) {
        assert Step(run[k + i], events[k + i], run[k + i + 1], t);
      }
    }
    assert WaitingRun(run[k..], events[k..], t);
    TurnsLeft(run[k..], events[k..], t);
    assert run[k..][|events[k..]|] == run[|events|];
  }
}
