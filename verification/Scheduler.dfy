/** The run queue and the sleep list as linked lists of tasks, and the operations on them. */
module Scheduler {
  import opened SchedModel

  const BOOST_INTERVAL: nat := 500
  const BASE_SLICE: nat := 1

  /** sched_prio_to_slice. */
  function SliceFor(priority: int): int
  {
    BASE_SLICE + (19 - priority)
  }

  /** What the rest of the kernel may do to the scheduler; tasks are named by their place in the queue. */
  datatype Call =
    | DoSchedule(now: nat)
    | DoTick(now: nat)
    | DoSleep(until: nat)
    | DoBlock
    | DoExit
    | DoWake(n: nat)
    | DoRenice(n: nat, prio: int)

  predicate BoostDue(now: nat, last: nat)
  {
    Elapsed(now, last) >= BOOST_INTERVAL
  }

  /** What a call is to a task that waits; `last` is the tick of the last boost scan. */
  function EventOf(call: Call, last: nat): Event
  {
    match call
    case DoSchedule(now) => Event.Schedule
    case DoTick(now) => if BoostDue(now, last) then Boost(now) else Other
    case _ => Other
  }

  function LastAfter(call: Call, last: nat): nat
  {
    if call.DoTick? && BoostDue(call.now, last) then call.now else last
  }

  function LastBoost(calls: seq<Call>, last: nat): nat
  {
    if calls == [] then last else LastAfter(calls[|calls| - 1], LastBoost(calls[..|calls| - 1], last))
  }

  function EventsOf(calls: seq<Call>, last: nat): (r: seq<Event>)
    ensures |r| == |calls|
  {
    if calls == [] then []
    else
      var n := |calls| - 1;
      EventsOf(calls[..n], last) + [EventOf(calls[n], LastBoost(calls[..n], last))]
  }

  lemma EventsMore(calls: seq<Call>, i: nat, last: nat)
    requires i < |calls|
    ensures EventsOf(calls[..i + 1], last) == EventsOf(calls[..i], last) + [EventOf(calls[i], LastBoost(calls[..i], last))]
    ensures LastBoost(calls[..i + 1], last) == LastAfter(calls[i], LastBoost(calls[..i], last))
  {
    assert calls[..i + 1][..i] == calls[..i];
  }

  /** From call k on the task has top priority, and the queue's length in dispatches follows. */
  ghost predicate Due(calls: seq<Call>, last: nat, x: SchedModel.Info, n: nat, k: nat)
  {
    var events := EventsOf(calls, last);
    k <= |calls| && StarvedScans(events[..k], x.lastRun) >= x.priority - PRIO_MIN && Dispatches(events[k..]) >= n
  }

  lemma NotDue(run: seq<Sys>, calls: seq<Call>, last: nat, t: int, k: nat)
    requires WaitingRun(run, EventsOf(calls, last), t)
    ensures !Due(calls, last, run[0].q[t], |run[0].q|, k)
  {
    var events, x := EventsOf(calls, last), run[0].q[t];
    hide WaitingRun, EventsOf, Dispatches, StarvedScans;
    if k <= |calls| && StarvedScans(events[..k], x.lastRun) >= x.priority - PRIO_MIN {
      BoundedStarvation(run, events, t, k);
    }
  }

  class Task {
    const idle: bool
    var state: State
    var priority: int
    var staticPriority: int
    var timeSlice: int
    var timeSliceMax: int
    var totalTicks: nat
    var lastRun: nat
    var sleepUntil: nat
    var sleepTimedOut: bool
    var next: Task?
    var sleepNext: Task?

    constructor (priority: int, idle: bool)
    {
      this.idle := idle;
      this.priority, this.staticPriority := priority, priority;
      state, timeSlice, timeSliceMax := Ready, SliceFor(priority), SliceFor(priority);
      totalTicks, lastRun, sleepUntil, sleepTimedOut := 0, 0, 0, false;
      next, sleepNext := null, null;
    }

    function Info(): SchedModel.Info
      reads this
    {
      SchedModel.Info(state, priority, staticPriority, idle, lastRun)
    }
  }

  predicate Distinct(s: seq<Task>)
  {
    forall i, j :: 0 <= i < j < |s| ==> s[i] != s[j]
  }

  ghost function InfoSeq(q: seq<Task>): (r: seq<SchedModel.Info>)
    reads q
    ensures |r| == |q| && forall i :: 0 <= i < |r| ==> r[i] == q[i].Info()
  {
    if q == [] then [] else InfoSeq(q[..|q| - 1]) + [q[|q| - 1].Info()]
  }

  /** The n-th task of a list, null past its end. */
  function Nth(s: seq<Task>, n: nat): Task?
  {
    if n < |s| then s[n] else null
  }

  /** In order of wake-up time. */
  ghost predicate Sorted(s: seq<Task>)
    reads s`sleepUntil
  {
    forall i, j :: 0 <= i < j < |s| ==> s[i].sleepUntil <= s[j].sleepUntil
  }

  ghost function Inserted(s: seq<Task>, k: nat, x: Task): (r: seq<Task>)
    requires k <= |s|
    ensures |r| == |s| + 1
    ensures forall j :: 0 <= j < |r| ==> r[j] == if j < k then s[j] else if j == k then x else s[j - 1]
  {
    s[..k] + [x] + s[k..]
  }

  lemma InsertedMembers(s: seq<Task>, k: nat, x: Task)
    requires k <= |s|
    ensures forall y :: y in Inserted(s, k, x) <==> y == x || y in s
  {
  }

  lemma InsertSorted(s: seq<Task>, k: nat, task: Task)
    requires k <= |s| && Distinct(s) && task !in s && Sorted(s)
    requires forall i :: 0 <= i < k ==> s[i].sleepUntil <= task.sleepUntil
    requires forall i :: k <= i < |s| ==> task.sleepUntil < s[i].sleepUntil
    ensures Distinct(Inserted(s, k, task)) && Sorted(Inserted(s, k, task))
  {
  }

  /** Relinking s[k - 1] to task and task to s[k] threads the list with task inserted. */
  lemma Spliced(s: seq<Task>, k: nat, task: Task)
    requires k <= |s|
    requires forall i {:trigger s[i].sleepNext} :: 0 <= i < |s| && i != k - 1 ==> s[i].sleepNext == Nth(s, i + 1)
    requires k > 0 ==> s[k - 1].sleepNext == task
    requires task.sleepNext == Nth(s, k)
    ensures Threaded(Inserted(s, k, task))
  {
  }

  lemma TakenOut(s: seq<Task>, k: nat)
    requires k < |s| && Distinct(s) && Sorted(s)
    ensures var r := s[..k] + s[k + 1..];
      Distinct(r) && Sorted(r) && s[k] !in r && forall x :: x in r ==> x in s
  {
  }

  /** Relinking s[k - 1] past s[k] threads the list without it. */
  lemma Bypassed(s: seq<Task>, k: nat, r: seq<Task>)
    requires k < |s| && r == s[..k] + s[k + 1..]
    requires forall i {:trigger s[i].sleepNext} :: 0 <= i < |s| && i != k - 1 ==> s[i].sleepNext == Nth(s, i + 1)
    requires k > 0 ==> s[k - 1].sleepNext == Nth(s, k + 1)
    ensures Threaded(r)
  {
    forall i {:trigger r[i].sleepNext} | 0 <= i < |r| ensures r[i].sleepNext == Nth(r, i + 1) {
      assert r[i] == if i < k then s[i] else s[i + 1];
    }
  }

  /** Each task links to the one after it. */
  ghost predicate Threaded(s: seq<Task>)
    reads s`sleepNext
  {
    forall i {:trigger s[i].sleepNext} :: 0 <= i < |s| ==> s[i].sleepNext == Nth(s, i + 1)
  }

  lemma PickIsCandidate(q: seq<SchedModel.Info>, p: int, k: int)
    ensures IsPick(q, p, k) ==> Candidate(q, p, k)
  {
  }

  lemma SameDispatch(queue: seq<Task>, q: seq<SchedModel.Info>, p: int, k: int, now: nat)
    requires |q| == |queue| && -1 <= p < |q| && 0 <= k < |q| && k != p
    requires forall i :: 0 <= i < |q| ==> queue[i].Info() == Dispatched(q, p, k, now)[i]
    ensures InfoSeq(queue) == Dispatched(q, p, k, now)
  {
  }

  lemma DispatchBounded(q: seq<SchedModel.Info>, p: int, k: int, now: nat)
    requires InBounds(q) && -1 <= p < |q| && 0 <= k < |q|
    ensures InBounds(Dispatched(q, p, k, now))
  {
  }

  /** What waking does to a sleeper that was in state was. */
  ghost predicate Woken(t: Task, was: State)
    reads t
  {
    t.sleepUntil == 0 && t.sleepTimedOut && t.sleepNext == null && t.state == if was == Sleeping then Ready else was
  }

  /** Wake-up time and state of a sleeper. */
  datatype Nap = Nap(until: nat, state: State)

  ghost function Naps(s: seq<Task>): (r: seq<Nap>)
    reads s
    ensures |r| == |s| && forall i :: 0 <= i < |r| ==> r[i] == Nap(s[i].sleepUntil, s[i].state)
  {
    if s == [] then [] else Naps(s[..|s| - 1]) + [Nap(s[|s| - 1].sleepUntil, s[|s| - 1].state)]
  }

  /** The first m sleepers were due and have woken, the others are as they were. */
  ghost predicate Progress(s: seq<Task>, m: nat, was: seq<Nap>, now: nat)
    reads s
  {
    && |was| == |s|
    && forall i :: 0 <= i < |s| ==>
         if i < m then was[i].until <= now && Woken(s[i], was[i].state)
         else s[i].sleepUntil == was[i].until && s[i].state == was[i].state
  }

  lemma NothingWoken(s: seq<Task>, now: nat)
    ensures Progress(s, 0, Naps(s), now)
  {
  }

  /** Naps of tasks that sleep, none of them the idle task. */
  ghost predicate AllAsleep(s: seq<Task>, was: seq<Nap>)
  {
    |was| == |s| && forall i :: 0 <= i < |s| ==> was[i].state == Sleeping && was[i].until > 0 && !s[i].idle
  }

  lemma StillAsleep(s: seq<Task>, m: nat, was: seq<Nap>, now: nat)
    requires Progress(s, m, was, now) && m <= |s| && AllAsleep(s, was)
    ensures forall x :: x in s[m..] ==> x.state == Sleeping && x.sleepUntil > 0 && !x.idle
  {
    forall x | x in s[m..] ensures x.state == Sleeping && x.sleepUntil > 0 && !x.idle {
      var i :| m <= i < |s| && s[i] == x;
    }
  }

  lemma AllWoken(s: seq<Task>, m: nat, was: seq<Nap>, now: nat)
    requires Progress(s, m, was, now) && m <= |s|
    ensures |was| == |s| && forall i :: 0 <= i < m ==> was[i].until <= now && Woken(s[i], was[i].state)
    ensures forall i :: m <= i < |s| ==> s[i].sleepUntil == was[i].until && s[i].state == was[i].state
  {
  }

  /** s' is s with its one occurrence of x taken out. */
  ghost predicate Without(s: seq<Task>, x: Task, s': seq<Task>)
  {
    exists k :: 0 <= k < |s| && s[k] == x && s' == s[..k] + s[k + 1..]
  }

  class Scheduler {
    var head: Task?
    var tail: Task?
    var count: nat
    var sleepHead: Task?
    var current: Task?
    var idleTask: Task?
    var lastBoost: nat
    var needResched: bool
    ghost var queue: seq<Task>
    ghost var sleepers: seq<Task>

    constructor ()
      ensures QueueOk() && SleepOk() && queue == [] && sleepers == [] && current == null
    {
      head, tail, count, sleepHead, current, idleTask, lastBoost := null, null, 0, null, null, null, 0;
      needResched := false;
      queue, sleepers := [], [];
    }

    /** The next pointers thread exactly the tasks of queue, once each. */
    ghost predicate QueueOk()
      reads this`head, this`tail, this`count, this`queue, queue`next
    {
      && count == |queue| && Distinct(queue)
      && (if queue == [] then head == null && tail == null
          else head == queue[0] && tail == queue[|queue| - 1] && tail.next == null)
      && forall i {:trigger queue[i].next} :: 0 <= i < |queue| - 1 ==> queue[i].next == queue[i + 1]
    }

    /** The sleep list is threaded the same way, in order of wake-up time. */
    ghost predicate SleepOk()
      reads this`sleepHead, this`sleepers, sleepers`sleepNext, sleepers`sleepUntil
    {
      && Distinct(sleepers)
      && sleepHead == Nth(sleepers, 0)
      && Threaded(sleepers)
      && Sorted(sleepers)
    }

    /** Tasks on the sleep list are asleep and have a wake-up time; the idle task never is. */
    ghost predicate Asleep()
      reads this`sleepers, sleepers`state, sleepers`sleepUntil
    {
      forall x :: x in sleepers ==> x.state == Sleeping && x.sleepUntil > 0 && !x.idle
    }

    /** sched_add_task. */
    method AddTask(task: Task)
      requires QueueOk()
      modifies this`head, this`tail, this`count, this`queue, task`next, queue`next
      ensures QueueOk()
      ensures queue == if task in old(queue) then old(queue) else old(queue) + [task]
    {
      var cursor := head;
      ghost var i := 0;
      while cursor != null
        invariant 0 <= i <= |queue| && task !in queue[..i]
        invariant cursor == if i < |queue| then queue[i] else null
        decreases |queue| - i
      {
        if cursor == task {
          return;
        }
        cursor := cursor.next;
        i := i + 1;
      }
      assert queue[..i] == queue;
      task.next := null;
      if tail != null {
        tail.next := task;
      } else {
        head := task;
      }
      tail := task;
      count := count + 1;
      queue := queue + [task];
    }

    /** The walk to a task: its predecessor and position. */
    method Locate(task: Task) returns (found: bool, prev: Task?, ghost i: nat)
      requires QueueOk()
      ensures found <==> task in queue
      ensures found ==> i < |queue| && queue[i] == task && prev == if i > 0 then queue[i - 1] else null
    {
      prev := null;
      var cursor := head;
      i := 0;
      while cursor != null
        invariant 0 <= i <= |queue| && task !in queue[..i]
        invariant cursor == if i < |queue| then queue[i] else null
        invariant prev == if i > 0 then queue[i - 1] else null
        decreases |queue| - i
      {
        if cursor == task {
          return true, prev, i;
        }
        prev := cursor;
        cursor := cursor.next;
        i := i + 1;
      }
      assert queue[..i] == queue;
      found := false;
    }

    /** sched_remove_task: the running task stays. */
    method RemoveTask(task: Task)
      requires QueueOk()
      modifies this`head, this`tail, this`count, this`queue, queue`next
      ensures QueueOk()
      ensures task == current || task !in old(queue) ==> queue == old(queue)
      ensures task != current && task in old(queue) ==> Without(old(queue), task, queue)
    {
      if task == current {
        return;
      }
      var found, prev;
      ghost var i: nat;
      found, prev, i := Locate(task);
      if !found {
        return;
      }
      ghost var q := queue;
      ghost var q' := q[..i] + q[i + 1..];
      assert forall j :: 0 <= j < |q'| ==> q'[j] == if j < i then q[j] else q[j + 1];
      if prev != null {
        prev.next := task.next;
      } else {
        head := task.next;
      }
      if tail == task {
        tail := prev;
      }
      task.next := null;
      count := count - 1;
      queue := q';
      forall j {:trigger q'[j].next} | 0 <= j < |q'| - 1
        ensures q'[j].next == q'[j + 1]
      {
        if j < i - 1 {
          assert q'[j] == q[j] && q'[j + 1] == q[j + 1];
        } else if j == i - 1 {
          assert q'[j] == prev && q'[j + 1] == q[i + 1];
        } else {
          assert q'[j] == q[j + 1] && q'[j + 1] == q[j + 2];
        }
      }
    }

    /** The walk of sched_add_sleeper: past every sleeper that wakes no later than tick. */
    method LocateWake(tick: nat) returns (prev: Task?, cursor: Task?, ghost k: nat)
      requires SleepOk()
      ensures k <= |sleepers|
      ensures cursor == Nth(sleepers, k)
      ensures prev == if k > 0 then sleepers[k - 1] else null
      ensures forall i :: 0 <= i < k ==> sleepers[i].sleepUntil <= tick
      ensures forall i :: k <= i < |sleepers| ==> tick < sleepers[i].sleepUntil
    {
      prev := null;
      cursor := sleepHead;
      k := 0;
      while cursor != null && cursor.sleepUntil <= tick
        invariant 0 <= k <= |sleepers|
        invariant cursor == Nth(sleepers, k)
        invariant prev == if k > 0 then sleepers[k - 1] else null
        invariant forall i :: 0 <= i < k ==> sleepers[i].sleepUntil <= tick
        decreases |sleepers| - k
      {
        prev := cursor;
        cursor := cursor.sleepNext;
        k := k + 1;
      }
    }

    /** sched_add_sleeper: behind every sleeper that wakes no later. */
    method AddSleeper(task: Task) returns (ghost k: nat)
      requires SleepOk() && task !in sleepers
      modifies this`sleepHead, this`sleepers, task`sleepNext, sleepers`sleepNext
      ensures SleepOk()
      ensures k <= |old(sleepers)| && sleepers == Inserted(old(sleepers), k, task)
    {
      var prev, cursor;
      prev, cursor, k := LocateWake(task.sleepUntil);
      ghost var s := sleepers;
      Relink(prev, cursor, task);
      sleepers := Inserted(s, k, task);
      InsertSorted(s, k, task);
      Spliced(s, k, task);
    }

    /** The pointer updates of sched_add_sleeper: only prev and task change their link. */
    method Relink(prev: Task?, cursor: Task?, task: Task)
      requires prev != task
      modifies this`sleepHead, task`sleepNext, (if prev == null then {} else {prev})`sleepNext
      ensures task.sleepNext == cursor
      ensures if prev == null then sleepHead == task else prev.sleepNext == task && sleepHead == old(sleepHead)
    {
      task.sleepNext := cursor;
      if prev != null {
        prev.sleepNext := task;
      } else {
        sleepHead := task;
      }
    }

    /** sched_remove_sleeper: the task leaves the list, if it is on it, and the order is kept. */
    method RemoveSleeper(task: Task)
      requires SleepOk()
      modifies this`sleepHead, this`sleepers, sleepers`sleepNext
      ensures SleepOk() && task !in sleepers && forall x :: x in sleepers ==> x in old(sleepers)
      ensures if task in old(sleepers) then Without(old(sleepers), task, sleepers) else sleepers == old(sleepers)
    {
      var prev: Task? := null;
      var cursor := sleepHead;
      ghost var k := 0;
      while cursor != null
        invariant 0 <= k <= |sleepers| && SleepOk() && task !in sleepers[..k]
        invariant cursor == Nth(sleepers, k) && prev == (if k > 0 then sleepers[k - 1] else null)
        decreases |sleepers| - k
      {
        if cursor == task {
          TakeOut(prev, cursor, k);
          return;
        }
        prev := cursor;
        cursor := cursor.sleepNext;
        k := k + 1;
      }
      assert sleepers[..k] == sleepers;
    }

    method TakeOut(prev: Task?, task: Task, ghost k: nat)
      requires SleepOk() && k < |sleepers| && task == sleepers[k] && prev == (if k > 0 then sleepers[k - 1] else null)
      modifies this`sleepHead, this`sleepers, sleepers`sleepNext
      ensures SleepOk() && sleepers == old(sleepers)[..k] + old(sleepers)[k + 1..] && task !in sleepers
      ensures Without(old(sleepers), task, sleepers) && forall x :: x in sleepers ==> x in old(sleepers)
    {
      ghost var s := sleepers;
      TakenOut(s, k);
      Unlink(prev, task);
      sleepers := s[..k] + s[k + 1..];
      Bypassed(s, k, sleepers);
    }

    /** The pointer update of sched_remove_sleeper: only what leads to the task changes. */
    method Unlink(prev: Task?, cursor: Task)
      requires prev != cursor
      modifies this`sleepHead, (if prev == null then {} else {prev})`sleepNext
      ensures if prev == null then sleepHead == cursor.sleepNext
              else prev.sleepNext == cursor.sleepNext && sleepHead == old(sleepHead)
    {
      if prev != null {
        prev.sleepNext := cursor.sleepNext;
      } else {
        sleepHead := cursor.sleepNext;
      }
    }

    /** One round of sched_check_sleepers: the first sleeper leaves the list and wakes. */
    method WakeFirst(task: Task)
      requires SleepOk() && task == sleepHead
      modifies this`sleepHead, this`sleepers
      modifies task`sleepNext, task`sleepUntil, task`sleepTimedOut, task`state, task`timeSlice
      ensures SleepOk() && old(sleepers) == [task] + sleepers && sleepHead == Nth(old(sleepers), 1)
      ensures Woken(task, old(task.state))
    {
      ghost var s := sleepers;
      assert task == s[0] && task.sleepNext == Nth(s, 1);
      sleepHead := task.sleepNext;
      task.sleepNext := null;
      task.sleepUntil := 0;
      task.sleepTimedOut := true;
      if task.state == Sleeping {
        task.state := Ready;
        task.timeSlice := task.timeSliceMax;
      }
      sleepers := s[1..];
      forall i {:trigger sleepers[i].sleepNext} | 0 <= i < |sleepers|
        ensures sleepers[i].sleepNext == Nth(sleepers, i + 1)
      {
        assert s[i + 1].sleepNext == Nth(s, i + 2);
      }
    }

    /** sched_check_sleepers: exactly the sleepers that are due, the first m, leave the list and wake. */
    method CheckSleepers(now: nat) returns (ghost m: nat)
      requires SleepOk()
      modifies this`sleepHead, this`sleepers
      modifies sleepers`sleepNext, sleepers`sleepUntil, sleepers`sleepTimedOut, sleepers`state, sleepers`timeSlice
      ensures SleepOk() && m <= |old(sleepers)| && sleepers == old(sleepers)[m..]
      ensures Progress(old(sleepers), m, old(Naps(sleepers)), now)
      ensures forall x :: x in sleepers ==> x.sleepUntil > now
    {
      ghost var s, was := sleepers, Naps(sleepers);
      assert sleepHead == Nth(s, 0) && Distinct(s);
      m := 0;
      NothingWoken(s, now);
      hide SleepOk, Progress, Naps;
      while sleepHead != null && sleepHead.sleepUntil <= now
        invariant 0 <= m <= |s| && sleepers == s[m..] && sleepHead == Nth(s, m) && SleepOk()
        invariant Progress(s, m, was, now)
        decreases |s| - m
      {
        WakeNext(sleepHead, s, m, was, now);
        m := m + 1;
      }
      NoneDue(now);
    }

    /** One round, against the list and the wake-up times the walk began with. */
    method WakeNext(task: Task, ghost s: seq<Task>, ghost m: nat, ghost was: seq<Nap>, now: nat)
      requires SleepOk() && task == sleepHead && task.sleepUntil <= now
      requires m < |s| && sleepers == s[m..] && Distinct(s) && task == s[m] && Progress(s, m, was, now)
      modifies this`sleepHead, this`sleepers
      modifies task`sleepNext, task`sleepUntil, task`sleepTimedOut, task`state, task`timeSlice
      ensures SleepOk() && sleepers == s[m + 1..] && sleepHead == Nth(s, m + 1) && Progress(s, m + 1, was, now)
    {
      hide SleepOk;
      assert Nth(s[m..], 1) == Nth(s, m + 1);
      WakeFirst(task);
      assert sleepers == s[m..][1..];
    }

    lemma NoneDue(now: nat)
      requires SleepOk() && (sleepHead == null || sleepHead.sleepUntil > now)
      ensures forall t :: t in sleepers ==> t.sleepUntil > now
    {
    }

    ghost function Infos(): (r: seq<SchedModel.Info>)
      reads this`queue, queue
      ensures |r| == |queue| && forall i :: 0 <= i < |r| ==> r[i] == queue[i].Info()
    {
      InfoSeq(queue)
    }

    /** sched_boost_starved. */
    method BoostStarved(now: nat)
      requires QueueOk()
      modifies queue`priority, queue`timeSliceMax
      ensures QueueOk() && (old(Bounded()) ==> Bounded())
      ensures forall i :: 0 <= i < |queue| ==> queue[i].Info() == Boosted(old(queue[i].Info()), now)
    {
      var cursor := head;
      ghost var i := 0;
      while cursor != null
        invariant 0 <= i <= |queue| && cursor == Nth(queue, i)
        invariant QueueOk()
        invariant forall j :: 0 <= j < |queue| ==>
                    queue[j].Info() == if j < i then Boosted(old(queue[j].Info()), now) else old(queue[j].Info())
        decreases |queue| - i
      {
        if cursor.state == Ready && !cursor.idle && cursor.priority > PRIO_MIN
           && Elapsed(now, cursor.lastRun) >= STARVE_THRESHOLD {
          cursor.priority := cursor.priority - 1;
          cursor.timeSliceMax := SliceFor(cursor.priority);
        }
        cursor := cursor.next;
        i := i + 1;
      }
    }

    /** p is the position of task t in the queue, or -1. */
    ghost predicate At(t: Task?, p: int)
      reads this`queue
    {
      -1 <= p < |queue| && (p >= 0 ==> queue[p] == t) && (p == -1 ==> t !in queue)
    }

    /** pick_next_task: the pick if there is a candidate, else the idle task if it can run. */
    method PickNext(prev: Task, ghost p: int) returns (r: Task?, ghost k: int)
      requires QueueOk() && InBounds(Infos()) && At(prev, p)
      ensures k >= 0 ==> IsPick(Infos(), p, k) && r == queue[k]
      ensures k < 0 ==> forall i :: !Candidate(Infos(), p, i)
      ensures k < 0 ==> r == if queue == [] || IdleReady() then idleTask else null
    {
      k := -1;
      if head == null {
        return idleTask, k;
      }
      var best: Task? := null;
      var bestPrio := PRIO_MAX + 1;
      var pastPrev, bestPast := false, false;
      var cursor := head;
      ghost var i := 0;
      ghost var q := Infos();
      while cursor != null
        invariant 0 <= i <= |queue| && cursor == Nth(queue, i)
        invariant pastPrev <==> 0 <= p < i
        invariant best == null <==> k < 0
        invariant best == null ==> bestPrio == PRIO_MAX + 1
        invariant best != null ==>
                    k < i && best == queue[k] && bestPrio == q[k].priority && Candidate(q, p, k) && (bestPast <==> 0 <= p < k)
        invariant forall j :: 0 <= j < i && Candidate(q, p, j) ==>
                    best != null && (bestPrio < q[j].priority
                                     || (bestPrio == q[j].priority && Distance(p, k, |q|) <= Distance(p, j, |q|)))
        decreases |queue| - i
      {
        if cursor == prev {
          pastPrev := true;
        } else if cursor.state == Ready && !cursor.idle {
          assert Candidate(q, p, i);
          if cursor.priority < bestPrio {
            bestPrio, best, bestPast, k := cursor.priority, cursor, pastPrev, i;
          } else if cursor.priority == bestPrio && pastPrev && !bestPast {
            best, bestPast, k := cursor, true, i;
          }
        }
        cursor := cursor.next;
        i := i + 1;
      }
      if best != null {
        return best, k;
      }
      if idleTask != null && idleTask.state != Zombie {
        return idleTask, k;
      }
      return null, k;
    }

    /** The tasks schedule() may touch. */
    ghost function Tasks(): set<Task>
      reads this`queue, this`current, this`idleTask
    {
      (set t | t in queue) + (if current == null then {} else {current}) + (if idleTask == null then {} else {idleTask})
    }

    /** Every priority in the queue is in range. */
    ghost predicate Bounded()
      reads this`queue, queue`priority, queue`staticPriority
    {
      forall i :: 0 <= i < |queue| ==>
        PRIO_MIN <= queue[i].priority <= PRIO_MAX && PRIO_MIN <= queue[i].staticPriority <= PRIO_MAX
    }

    lemma BoundsSame()
      ensures Bounded() <==> InBounds(Infos())
    {
      assert forall i :: 0 <= i < |queue| ==> Infos()[i] == queue[i].Info();
    }

    ghost predicate IdleReady()
      reads this`idleTask, (if idleTask == null then {} else {idleTask})`state
    {
      idleTask != null && idleTask.state != Zombie
    }

    /** schedule, up to the context switch. */
    method Schedule(now: nat, ghost p: int) returns (ghost k: int)
      requires QueueOk() && Bounded() && At(current, p)
      requires idleTask != null ==> idleTask.idle
      modifies this`current, Tasks()`state, Tasks()`lastRun, Tasks()`priority, Tasks()`timeSliceMax
      ensures QueueOk() && Bounded() && queue == old(queue)
      // A candidate is dispatched, chosen by IsPick, whenever there is one and a task is running.
      ensures k >= 0 ==> IsPick(old(Infos()), p, k) && current == queue[k] && Infos() == Dispatched(old(Infos()), p, k, now)
      ensures k < 0 ==> old(current) == null || forall i :: !Candidate(old(Infos()), p, i)
      // Otherwise the idle task takes over, if there is one that can run and a queue to run beside.
      ensures k < 0 ==>
        current == (if old(current) != null && queue != [] && old(IdleReady()) then idleTask else old(current))
      ensures k < 0 && current == old(current) ==> Infos() == old(Infos())
      ensures k < 0 && current != old(current) ==> forall i :: 0 <= i < |queue| ==>
        queue[i].Info() == IdleRuns(old(queue[i].Info()), queue[i] == current, i == p, now)
      ensures old(Asleep()) ==> Asleep()
    {
      assert Distinct(queue) && (head == null <==> queue == []);
      BoundsSame();
      ghost var q := Infos();
      hide IsPick, InBounds, QueueOk, Dispatched, IdleRuns, Bounded, Asleep;
      k := -1;
      var prev := current;
      if prev == null {
        return;
      }
      if head == null {
        return;
      }
      var next;
      next, k := PickNext(prev, p);
      PickIsCandidate(Infos(), p, k);
      if next == null || next == prev {
        return;
      }
      if next.idle {
        SwitchIdle(prev, next, now, p);
      } else {
        assert Infos()[k] == next.Info();
        SwitchQueue(prev, next, now, p, k);
        DispatchBounded(q, p, k, now);
        BoundsSame();
      }
    }

    /** The bookkeeping of schedule() on the two tasks. */
    method SwitchTo(prev: Task, next: Task, now: nat)
      requires prev != next
      modifies prev`state, next`state, next`lastRun, next`priority, next`timeSliceMax
      ensures prev.state == if old(prev.state) == Running then Ready else old(prev.state)
      ensures next.state == Running && next.lastRun == now
      ensures next.priority == if next.idle then old(next.priority) else next.staticPriority
    {
      if prev.state == Running {
        prev.state := Ready;
      }
      next.state := Running;
      next.lastRun := now;
      if next.priority != next.staticPriority && !next.idle {
        next.priority := next.staticPriority;
        next.timeSliceMax := SliceFor(next.priority);
      }
    }

    /** What that bookkeeping does to the queue when a waiting task becomes the current one. */
    method SwitchQueue(prev: Task, next: Task, now: nat, ghost p: int, ghost k: int)
      requires QueueOk() && At(prev, p) && prev != next
      requires 0 <= k < |queue| && k != p && next == queue[k] && !next.idle
      modifies this`current, prev`state, next`state, next`lastRun, next`priority, next`timeSliceMax
      ensures QueueOk() && current == next
      ensures Infos() == Dispatched(old(Infos()), p, k, now)
      ensures old(Asleep()) && old(next.state) == Ready ==> Asleep()
    {
      ghost var q := Infos();
      SwitchTo(prev, next, now);
      current := next;
      SameDispatch(queue, q, p, k, now);
    }

    /** Queue position i after the idle task has taken over from the task at p. */
    static ghost function IdleRuns(x: SchedModel.Info, isIdle: bool, wasCurrent: bool, now: nat): SchedModel.Info
    {
      if isIdle then x.(state := Running, lastRun := now)
      else if wasCurrent && x.state == Running then x.(state := Ready)
      else x
    }

    method SwitchIdle(prev: Task, next: Task, now: nat, ghost p: int)
      requires QueueOk() && At(prev, p) && prev != next && next.idle && Bounded()
      modifies this`current, prev`state, next`state, next`lastRun, next`priority, next`timeSliceMax
      ensures QueueOk() && current == next && Bounded() && (old(Asleep()) ==> Asleep())
      ensures forall i :: 0 <= i < |queue| ==>
        queue[i].Info() == IdleRuns(old(queue[i].Info()), queue[i] == next, i == p, now)
    {
      assert Distinct(queue);
      hide QueueOk;
      SwitchTo(prev, next, now);
      current := next;
    }

    /** The running task's share of sched_tick: a used-up slice ends any boost and asks for a switch. */
    method ChargeTick(task: Task)
      modifies this`needResched, task`totalTicks, task`timeSlice, task`timeSliceMax, task`priority
      ensures task.totalTicks == old(task.totalTicks) + 1
      ensures needResched <==> old(needResched) || old(task.timeSlice) in {0, 1}
      ensures old(task.timeSlice) !in {0, 1} ==>
        && task.timeSlice == (if old(task.timeSlice) > 1 then old(task.timeSlice) - 1 else old(task.timeSlice))
        && task.priority == old(task.priority) && task.timeSliceMax == old(task.timeSliceMax)
      ensures old(task.timeSlice) in {0, 1} ==>
        && task.timeSlice == task.timeSliceMax
        && task.priority == (if task.idle then old(task.priority) else task.staticPriority)
        && task.timeSliceMax == (if task.priority == old(task.priority) then old(task.timeSliceMax) else SliceFor(task.priority))
    {
      task.totalTicks := task.totalTicks + 1;
      if task.timeSlice > 0 {
        task.timeSlice := task.timeSlice - 1;
      }
      if task.timeSlice == 0 {
        task.timeSlice := task.timeSliceMax;
        if task.priority != task.staticPriority && !task.idle {
          task.priority := task.staticPriority;
          task.timeSliceMax := SliceFor(task.priority);
          task.timeSlice := task.timeSliceMax;
        }
        needResched := true;
      }
    }

    /** sched_check_sleepers leaves those on the list asleep. */
    method WakeSleepers(now: nat) returns (ghost m: nat)
      requires SleepOk()
      modifies this`sleepHead, this`sleepers
      modifies sleepers`sleepNext, sleepers`sleepUntil, sleepers`sleepTimedOut, sleepers`state, sleepers`timeSlice
      ensures SleepOk() && m <= |old(sleepers)| && sleepers == old(sleepers)[m..]
      ensures Progress(old(sleepers), m, old(Naps(sleepers)), now)
      ensures forall x :: x in sleepers ==> x.sleepUntil > now
      ensures old(Asleep()) ==> Asleep()
    {
      ghost var s, was := sleepers, Naps(sleepers);
      assert Asleep() ==> AllAsleep(s, was);
      hide SleepOk, Naps, Progress, AllAsleep, Asleep;
      m := CheckSleepers(now);
      if old(Asleep()) {
        StillAsleep(s, m, was, now);
        assert Asleep() by { RestAsleep(s[m..]); }
      }
    }

    lemma RestAsleep(s: seq<Task>)
      requires sleepers == s && forall x :: x in s ==> x.state == Sleeping && x.sleepUntil > 0 && !x.idle
      ensures Asleep()
    {
    }

    /** sched_check_sleepers as the run queue sees it: a task that was ready stays as it was. */
    method WakeDue(now: nat)
      requires QueueOk() && SleepOk()
      modifies this`sleepHead, this`sleepers
      modifies sleepers`sleepNext, sleepers`sleepUntil, sleepers`sleepTimedOut, sleepers`state, sleepers`timeSlice
      ensures QueueOk() && SleepOk() && forall x :: x in sleepers ==> x.sleepUntil > now && x in old(sleepers)
      ensures old(Asleep()) ==> Asleep()
      ensures forall i :: 0 <= i < |queue| && old(queue[i].state) == Ready ==> queue[i].Info() == old(queue[i].Info())
    {
      ghost var s, was := sleepers, Naps(sleepers);
      assert forall j :: 0 <= j < |s| ==> was[j].state == old(s[j].state);
      hide QueueOk, SleepOk, Naps, Progress, Asleep;
      ghost var m := WakeSleepers(now);
      AllWoken(s, m, was, now);
      forall i | 0 <= i < |queue| && old(queue[i].state) == Ready
        ensures queue[i].state == Ready
      {
        if queue[i] in s {
          ghost var j :| 0 <= j < |s| && s[j] == queue[i];
          assert j < m ==> Woken(s[j], Ready);
        }
      }
    }

    /** sched_tick: a waiting task is left alone, or boosted when a scan is due. */
    method Tick(now: nat, ghost p: int)
      requires QueueOk() && SleepOk() && Bounded() && At(current, p)
      modifies this`needResched, this`lastBoost, this`sleepHead, this`sleepers
      modifies Tasks()`totalTicks, Tasks()`timeSlice, Tasks()`timeSliceMax, Tasks()`priority
      modifies sleepers`sleepNext, sleepers`sleepUntil, sleepers`sleepTimedOut, sleepers`state, sleepers`timeSlice
      ensures QueueOk() && SleepOk() && Bounded()
      ensures forall x :: x in sleepers ==> x.sleepUntil > now && x in old(sleepers)
      ensures old(Asleep()) ==> Asleep()
      ensures lastBoost == if BoostDue(now, old(lastBoost)) then now else old(lastBoost)
      ensures current != null ==> current.totalTicks == old(current.totalTicks) + 1
      ensures needResched <==> old(needResched) || (current != null && old(current.timeSlice) in {0, 1})
      ensures forall t :: Candidate(old(Infos()), p, t) ==>
        queue[t].Info() == if BoostDue(now, old(lastBoost)) then Boosted(old(queue[t].Info()), now) else old(queue[t].Info())
    {
      hide QueueOk, SleepOk, Boosted, BoostDue, Bounded;
      ChargeAndWake(now, p);
      BoostIfDue(now);
    }

    /** sched_tick before the boost scan: no waiting task is touched. */
    method ChargeAndWake(now: nat, ghost p: int)
      requires QueueOk() && SleepOk() && Bounded() && At(current, p)
      modifies this`needResched, this`sleepHead, this`sleepers
      modifies Tasks()`totalTicks, Tasks()`timeSlice, Tasks()`timeSliceMax, Tasks()`priority
      modifies sleepers`sleepNext, sleepers`sleepUntil, sleepers`sleepTimedOut, sleepers`state, sleepers`timeSlice
      ensures QueueOk() && SleepOk() && Bounded()
      ensures forall x :: x in sleepers ==> x.sleepUntil > now && x in old(sleepers)
      ensures old(Asleep()) ==> Asleep()
      ensures current != null ==> current.totalTicks == old(current.totalTicks) + 1
      ensures needResched <==> old(needResched) || (current != null && old(current.timeSlice) in {0, 1})
      ensures forall t :: Candidate(old(Infos()), p, t) ==> queue[t].Info() == old(queue[t].Info())
    {
      ghost var q := Infos();
      hide QueueOk, SleepOk, Bounded;
      ChargeCurrent(p);
      assert forall t :: Candidate(q, p, t) ==> queue[t].Info() == q[t];
      WakeDue(now);
    }

    /** The first part of sched_tick as the queue sees it: only the running task changes. */
    method ChargeCurrent(ghost p: int)
      requires QueueOk() && SleepOk() && Bounded() && At(current, p)
      modifies this`needResched, (if current == null then {} else {current})`totalTicks
      modifies (if current == null then {} else {current})`timeSlice
      modifies (if current == null then {} else {current})`timeSliceMax, (if current == null then {} else {current})`priority
      ensures QueueOk() && SleepOk() && Bounded()
      ensures current != null ==> current.totalTicks == old(current.totalTicks) + 1
      ensures needResched <==> old(needResched) || (current != null && old(current.timeSlice) in {0, 1})
      ensures forall i :: 0 <= i < |queue| && i != p ==> queue[i].Info() == old(queue[i].Info())
    {
      assert Distinct(queue);
      hide QueueOk, SleepOk;
      if current != null {
        ChargeTick(current);
      }
    }

    /** The boost scan of sched_tick, once per interval. */
    method BoostIfDue(now: nat)
      requires QueueOk() && SleepOk()
      modifies this`lastBoost, queue`priority, queue`timeSliceMax
      ensures QueueOk() && SleepOk() && (old(Bounded()) ==> Bounded())
      ensures lastBoost == if BoostDue(now, old(lastBoost)) then now else old(lastBoost)
      ensures forall i :: 0 <= i < |queue| ==>
        queue[i].Info() == if BoostDue(now, old(lastBoost)) then Boosted(old(queue[i].Info()), now) else old(queue[i].Info())
    {
      hide QueueOk, SleepOk, Bounded, Boosted, BoostDue;
      if BoostDue(now, lastBoost) {
        lastBoost := now;
        BoostStarved(now);
      }
    }

    // ---------- runs ----------

    /** A started scheduler: a task is running, sleepers have a wake-up time, and all tasks are among `all`. */
    ghost predicate Started(all: set<Task>, p: int)
      reads this, queue, sleepers
    {
      && QueueOk() && SleepOk() && Bounded() && At(current, p) && current != null
      && (idleTask != null ==> idleTask.idle)
      && Asleep() && (forall x :: x in sleepers ==> x in all) && Tasks() <= all
    }

    /** The task at position n of the list. */
    method TaskAt(n: nat) returns (x: Task?)
      requires QueueOk()
      ensures x == Nth(queue, n)
    {
      x := head;
      var i := 0;
      while i < n && x != null
        invariant i <= n && (x == null ==> i >= |queue|) && (x != null ==> x == Nth(queue, i))
      {
        x := x.next;
        i := i + 1;
      }
    }

    /** task_sleep_ticks up to its call of schedule. */
    method FallAsleep(task: Task, until: nat)
      requires SleepOk() && Asleep() && task.state == Running && !task.idle && until > 0
      modifies this`sleepHead, this`sleepers, task`sleepUntil, task`state, task`sleepTimedOut
      modifies task`sleepNext, sleepers`sleepNext
      ensures SleepOk() && Asleep() && task.state == Sleeping && task.sleepUntil == until
      ensures forall x :: x in sleepers <==> x == task || x in old(sleepers)
    {
      hide SleepOk, Inserted;
      ghost var s := sleepers;
      task.sleepUntil := until;
      task.state := Sleeping;
      task.sleepTimedOut := false;
      ghost var k := AddSleeper(task);
      InsertedMembers(s, k, task);
    }

    /** A task that has stopped runs no further code until it is dispatched again. */
    method SleepCurrent(until: nat, ghost all: set<Task>, ghost p: int)
      requires Started(all, p) && until > 0 && current.state == Running && !current.idle
      modifies this`sleepHead, this`sleepers, current`sleepUntil, current`state, current`sleepTimedOut
      modifies current`sleepNext, sleepers`sleepNext
      ensures Started(all, p)
      ensures forall i :: 0 <= i < |queue| && i != p ==> queue[i].Info() == old(queue[i].Info())
    {
      assert Distinct(queue);
      hide QueueOk, SleepOk, Bounded, Inserted, Asleep;
      FallAsleep(current, until);
    }

    /** The running task blocks or exits. */
    method StopCurrent(state: State, ghost all: set<Task>, ghost p: int)
      requires Started(all, p) && current.state == Running
      modifies current`state
      ensures Started(all, p)
      ensures forall i :: 0 <= i < |queue| && i != p ==> queue[i].Info() == old(queue[i].Info())
    {
      assert Distinct(queue) && current !in sleepers;
      hide QueueOk, SleepOk, Bounded;
      current.state := state;
    }

    /** wait_queue_wake_one on a queued task: a sleeper leaves the sleep list before it is made ready. */
    method WakeAt(n: nat, ghost all: set<Task>, ghost p: int)
      requires Started(all, p)
      modifies this`sleepHead, this`sleepers, sleepers`sleepNext
      modifies queue`state, queue`sleepUntil, queue`sleepTimedOut
      ensures Started(all, p)
      ensures forall i :: 0 <= i < |queue| && old(queue[i].state) == Ready ==> queue[i].Info() == old(queue[i].Info())
      ensures n < |queue| && old(queue[n].state) == Sleeping ==> queue[n].state == Ready && queue[n] !in sleepers
    {
      var x := TaskAt(n);
      hide Started;
      if x != null && x.state == Sleeping {
        WakeTask(x, all, p);
      }
    }

    method WakeTask(x: Task, ghost all: set<Task>, ghost p: int)
      requires Started(all, p) && x.state == Sleeping
      modifies this`sleepHead, this`sleepers, sleepers`sleepNext, x`sleepUntil, x`sleepTimedOut, x`state
      ensures Started(all, p) && x.state == Ready && x !in sleepers
    {
      hide QueueOk, SleepOk, Bounded, Asleep;
      Awaken(x);
    }

    method Awaken(x: Task)
      requires SleepOk() && Asleep() && x.state == Sleeping
      modifies this`sleepHead, this`sleepers, sleepers`sleepNext, x`sleepUntil, x`sleepTimedOut, x`state
      ensures SleepOk() && Asleep() && x.state == Ready && x !in sleepers
      ensures forall y :: y in sleepers ==> y in old(sleepers)
    {
      hide SleepOk, Without;
      if x.sleepUntil != 0 {
        RemoveSleeper(x);
        x.sleepUntil := 0;
      }
      x.sleepTimedOut := false;
      x.state := Ready;
    }

    /** task_set_priority on a queued task. */
    method Renice(n: nat, prio: int, ghost all: set<Task>, ghost p: int)
      requires Started(all, p)
      modifies queue`priority, queue`staticPriority, queue`timeSliceMax, queue`timeSlice
      ensures Started(all, p)
      ensures forall i :: 0 <= i < |queue| && i != n ==> queue[i].Info() == old(queue[i].Info())
    {
      var x := TaskAt(n);
      assert Distinct(queue);
      hide QueueOk, SleepOk;
      if x != null {
        SetPriority(x, prio);
      }
    }

    method SetPriority(x: Task, prio: int)
      modifies x`priority, x`staticPriority, x`timeSliceMax, x`timeSlice
      ensures x.priority == x.staticPriority == if prio < PRIO_MIN then PRIO_MIN else if prio > PRIO_MAX then PRIO_MAX else prio
      ensures x.timeSliceMax == SliceFor(x.priority)
      ensures x.timeSlice == if old(x.timeSlice) > x.timeSliceMax then x.timeSliceMax else old(x.timeSlice)
    {
      var clamped := if prio < PRIO_MIN then PRIO_MIN else if prio > PRIO_MAX then PRIO_MAX else prio;
      x.priority, x.staticPriority, x.timeSliceMax := clamped, clamped, SliceFor(clamped);
      if x.timeSlice > x.timeSliceMax {
        x.timeSlice := x.timeSliceMax;
      }
    }

    /** One call other than schedule() and the timer leaves the waiting task alone. */
    method DoOther(call: Call, t: nat, ghost all: set<Task>, ghost p: int)
      requires !call.DoSchedule? && !call.DoTick?
      requires Started(all, p) && Candidate(Infos(), p, t)
      modifies this`sleepHead, this`sleepers, all
      ensures Started(all, p) && queue[t].Info() == old(queue[t].Info())
    {
      assert forall i :: 0 <= i < |queue| ==> queue[i].Info() == Infos()[i];
      match call {
        case DoSleep(until) =>
          if until > 0 && current.state == Running && !current.idle {
            SleepCurrent(until, all, p);
          }
        case DoBlock =>
          if current.state == Running {
            StopCurrent(Sleeping, all, p);
          }
        case DoExit =>
          if current.state == Running {
            StopCurrent(Zombie, all, p);
          }
        case DoWake(n) => WakeAt(n, all, p);
        case DoRenice(n, prio) =>
          if n != t {
            Renice(n, prio, all, p);
          }
        case _ =>
      }
    }

    lemma WaitsOn(q: seq<SchedModel.Info>, p: int, t: nat, e: Event)
      requires Bounded() && |q| == |queue| && Candidate(q, p, t)
      requires match e case Schedule => false case Boost(now) => queue[t].Info() == Boosted(q[t], now)
                       case Other => queue[t].Info() == q[t]
      ensures Candidate(Infos(), p, t) && Step(Sys(q, p), e, Sys(Infos(), p), t)
    {
      BoundsSame();
      assert Infos()[t] == queue[t].Info();
    }

    method DoDispatch(now: nat, t: nat, ghost all: set<Task>, ghost p: int) returns (ghost k: int)
      requires Started(all, p) && Candidate(Infos(), p, t)
      modifies this`current, all
      ensures Started(all, k) && Step(Sys(old(Infos()), p), Event.Schedule, Sys(Infos(), k), t)
      ensures k != t ==> Candidate(Infos(), k, t)
    {
      ghost var q := Infos();
      BoundsSame();
      hide QueueOk, SleepOk, Bounded, InBounds, IsPick, Dispatched, Step, IdleRuns;
      k := Schedule(now, p);
      PickIsCandidate(q, p, k);
      DispatchIsStep(q, p, k, now, t);
    }

    method DoTimer(now: nat, t: nat, ghost all: set<Task>, ghost p: int)
      requires Started(all, p) && Candidate(Infos(), p, t)
      modifies this`needResched, this`lastBoost, this`sleepHead, this`sleepers, all
      ensures Started(all, p) && lastBoost == LastAfter(DoTick(now), old(lastBoost))
      ensures queue[t].Info()
              == if BoostDue(now, old(lastBoost)) then Boosted(old(queue[t].Info()), now) else old(queue[t].Info())
    {
      hide QueueOk, SleepOk, Bounded, BoostDue, Boosted;
      ghost var s := sleepers;
      Tick(now, p);
    }

    /** Every call is a step of the waiting-task relation. */
    method Do(call: Call, t: nat, ghost all: set<Task>, ghost p: int) returns (ghost p': int)
      requires Started(all, p) && Candidate(Infos(), p, t)
      modifies this`current, this`needResched, this`lastBoost, this`sleepHead, this`sleepers, all
      ensures Started(all, p') && lastBoost == LastAfter(call, old(lastBoost))
      ensures Step(Sys(old(Infos()), p), EventOf(call, old(lastBoost)), Sys(Infos(), p'), t)
      ensures p' != t ==> Candidate(Infos(), p', t)
    {
      ghost var q := Infos();
      ghost var e := EventOf(call, lastBoost);
      assert queue[t].Info() == q[t];
      hide QueueOk, SleepOk, Bounded, BoostDue, Boosted, Step;
      p' := p;
      match call {
        case DoSchedule(now) =>
          p' := DoDispatch(now, t, all, p);
        case DoTick(now) =>
          DoTimer(now, t, all, p);
          WaitsOn(q, p, t, e);
        case _ =>
          DoOther(call, t, all, p);
          WaitsOn(q, p, t, e);
      }
    }

    lemma RunStarts(calls: seq<Call>, last: nat, p: int, t: nat)
      requires Bounded() && At(current, p) && Candidate(Infos(), p, t)
      ensures WaitingRun([Sys(Infos(), p)], EventsOf(calls[..0], last), t) && LastBoost(calls[..0], last) == last
    {
      BoundsSame();
    }

    /**
      Bounded starvation.  Whatever the rest of the kernel does, a ready task is dispatched once
      enough boost scans have found it starved and as many dispatches follow as the queue has tasks.
     */
    method Run(calls: seq<Call>, t: nat, ghost all: set<Task>, ghost p: int) returns (ran: bool)
      requires Started(all, p) && Candidate(Infos(), p, t)
      modifies this`current, this`needResched, this`lastBoost, this`sleepHead, this`sleepers, all
      ensures ran ==> current == queue[t]
      ensures forall k: nat :: Due(calls, old(lastBoost), old(Infos()[t]), |queue|, k) ==> ran
    {
      hide QueueOk, SleepOk, Bounded, Step, EventOf, LastAfter, WaitingRun, EventsOf, LastBoost;
      ghost var last, cur := lastBoost, p;
      ghost var run := [Sys(Infos(), p)];
      RunStarts(calls, last, p, t);
      var waiting := TaskAt(t);
      var i := 0;
      while i < |calls|
        invariant i <= |calls| && Started(all, cur) && Candidate(Infos(), cur, t)
        invariant lastBoost == LastBoost(calls[..i], last)
        invariant |run| == i + 1 && run[0] == Sys(old(Infos()), p) && run[i] == Sys(Infos(), cur)
        invariant WaitingRun(run, EventsOf(calls[..i], last), t)
      {
        cur := Do(calls[i], t, all, cur);
        EventsMore(calls, i, last);
        if current == waiting {
          return true;
        }
        LongerRun(run, EventsOf(calls[..i], last), Sys(Infos(), cur), EventOf(calls[i], LastBoost(calls[..i], last)), t);
        run := run + [Sys(Infos(), cur)];
        i := i + 1;
      }
      assert calls[..i] == calls;
      forall k: nat
        ensures !Due(calls, last, run[0].q[t], |run[0].q|, k)
      {
        NotDue(run, calls, last, t, k);
      }
      ran := false;
    }
  }
}
