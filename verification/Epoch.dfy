/**
 * Progress of the scheduler over a run of clock ticks: with normal tasks only, every tick uses up part of a finite
 * amount of work, so the arrays are exchanged and every active task has run, unless a task is picked whose priority
 * has fallen behind that of its queue (kernel/pc/pc.c: scheduler_tick, schedule).
 */
module Epoch {
  import opened Common
  import opened PrioArrayModule
  import opened SchedulerModule
  import opened Pid

  /** The two clock readings of one tick. */
  datatype Reading = Reading(now: u32, later: u32)

  /** Every task is a normal one. */
  ghost predicate Normal(ps: seq<Task>)
    reads Elements(ps)`staticPrio
  {
    forall t :: t in ps ==> !t.IsRt()
  }

  /** The slice of a task, if it is in array `a`. */
  ghost function Weight(t: Task, a: PrioArray): nat
    reads t`inArray, t`timeSlice
  {
    if t.inArray == a then t.timeSlice else 0
  }

  /** The slices of all tasks in array `a`, in the order of `ps`. */
  ghost function Weights(ps: seq<Task>, a: PrioArray): (w: seq<nat>)
    reads Elements(ps)`inArray, Elements(ps)`timeSlice
    ensures |w| == |ps| && forall i :: 0 <= i < |ps| ==> w[i] == Weight(ps[i], a)
  {
    if ps == [] then [] else [Weight(ps[0], a)] + Weights(ps[1..], a)
  }

  function Sum(w: seq<nat>): nat {
    if w == [] then 0 else w[0] + Sum(w[1..])
  }

  lemma {:induction false} SumUpdate(w: seq<nat>, k: nat, x: nat)
    requires k < |w|
    ensures Sum(w[k := x]) == Sum(w) - w[k] + x
  {
    if k > 0 {
      SumUpdate(w[1..], k - 1, x);
      assert w[k := x][1..] == w[1..][k - 1 := x];
    }
  }

  /** The tasks in the active array. */
  ghost function Waiting(s: Scheduler): set<Task>
    reads s`processes, s`active, Elements(s.processes)`inArray
  {
    set t | t in s.processes && t.inArray == s.active
  }

  lemma WaitingMeans(s: Scheduler)
    ensures forall t :: t in s.processes && t.inArray == s.active ==> t in Waiting(s)
  {
  }

  /** Work left in the active array: the slices in it, and one tick if the next one will only switch tasks. */
  ghost function Work(s: Scheduler): nat
    reads s, s.active, s.current, Elements(s.processes)`inArray, Elements(s.processes)`timeSlice
  {
    Sum(Weights(s.processes, s.active)) + if s.VerdictOf(0) == Yield then 1 else 0
  }

  /** What is left of the slices of the tasks in array `a`, as pairs of a task and a time unit. */
  ghost function Units(ps: seq<Task>, a: PrioArray): set<(Task, nat)>
    reads Elements(ps)`inArray, Elements(ps)`timeSlice
  {
    set t, k: nat | t in ps && t.inArray == a && 0 <= k < t.timeSlice :: (t, k)
  }

  /** The work is one tick for each of these, and one more if the running task will be preempted at once. */
  lemma WorkIsUnits(s: Scheduler)
    requires Distinct(s.processes)
    ensures Work(s) == |Units(s.processes, s.active)| + if s.VerdictOf(0) == Yield then 1 else 0
  {
    UnitsSum(s.processes, s.active);
  }

  lemma {:induction false} UnitsSum(ps: seq<Task>, a: PrioArray)
    requires Distinct(ps)
    ensures Sum(Weights(ps, a)) == |Units(ps, a)|
  {
    if ps == [] {
      assert Units(ps, a) == {};
    } else {
      var t, rest := ps[0], ps[1..];
      UnitsSum(rest, a);
      assert Weights(ps, a)[1..] == Weights(rest, a);
      var own := set k: nat | 0 <= k < Weight(t, a) :: (t, k);
      OneEach(t, Weight(t, a));
      assert Units(ps, a) == own + Units(rest, a);
      assert own !! Units(rest, a) by {
        assert t !in rest;
      }
    }
  }

  lemma {:induction false} OneEach(t: Task, n: nat)
    ensures |set k: nat | 0 <= k < n :: (t, k)| == n
  {
    var all := set k: nat | 0 <= k < n :: (t, k);
    if n == 0 {
      assert all == {};
    } else {
      OneEach(t, n - 1);
      assert all == (set k: nat | 0 <= k < n - 1 :: (t, k)) + {(t, n - 1)};
    }
  }

  /** One tick changes the slice and the array of the running task only. */
  lemma WorkChange(w: seq<nat>, w': seq<nat>, ps: seq<Task>, p: Task)
    requires |w| == |ps| == |w'| && Distinct(ps)
    requires forall i :: 0 <= i < |ps| && ps[i] != p ==> w'[i] == w[i]
    ensures p !in ps ==> Sum(w') == Sum(w)
    ensures forall k :: 0 <= k < |ps| && ps[k] == p ==> Sum(w') == Sum(w) - w[k] + w'[k]
  {
    if p in ps {
      var k :| 0 <= k < |ps| && ps[k] == p;
      SumUpdate(w, k, w'[k]);
      assert w' == w[k := w'[k]];
    } else {
      assert w' == w;
    }
  }

  lemma CountedIsQueued(a: PrioArray)
    requires a.Linked() && a.Indexed()
    ensures 0 <= a.highestPrio <= MAX_PRIO && (a.nrActive > 0 <==> a.highestPrio < MAX_PRIO)
    ensures a.highestPrio < MAX_PRIO ==> a.queue[a.highestPrio] != []
  {
    TotalZero(a.queue[..]);
  }

  /** No task is in an array that counts none. */
  lemma NoneIn(s: Scheduler, a: PrioArray)
    requires s.Sound() && (a == s.first || a == s.second) && a.nrActive == 0
    ensures forall t :: t in s.processes ==> t.inArray != a
  {
    forall t | t in s.processes
      ensures t.inArray != a
    {
      s.HomeOf(t);
      if t.inArray == a {
        a.QueueOf(t);
        TotalZero(a.queue[..]);
      }
    }
  }

  /** The first queue that is not empty, or the number of queues. */
  function Best(qs: Queues): (k: nat)
    ensures k <= |qs| && (k < |qs| ==> qs[k] != []) && forall j :: 0 <= j < k ==> qs[j] == []
  {
    if qs == [] || qs[0] != [] then 0 else Best(qs[1..]) + 1
  }

  /** The queues of the active array, without the running task if its slice is used up. */
  function Left(s: Scheduler): (qs: Queues)
    reads s`current, s`active, s`expired, s.active, s.active.queue, s.current
    ensures |qs| == s.active.queue.Length && forall k, t :: 0 <= k < |qs| && t in qs[k] ==> t in s.active.queue[k]
  {
    if s.VerdictOf(0) == Expire then Removed(s.active.queue[..], s.current.linkedIn, s.current)
    else s.active.queue[..]
  }

  function Head(qs: Queues, k: nat): (t: Task)
    requires k < |qs| && qs[k] != []
    ensures t in qs[k]
  {
    qs[k][0]
  }

  /**
   * The next tick will pick a task from the active array whose priority at time `later` is behind that of its queue.
   */
  predicate Overtaken(s: Scheduler, later: u32)
    reads s`current, s`active, s`expired, s.active, s.active.queue, s.current, Members(s.active.queue[..])
  {
    var qs, k := Left(s), Best(Left(s));
    && (s.VerdictOf(0) == Yield || s.VerdictOf(0) == Expire)
    && k < |qs|
    && Head(qs, k).sleepAvg <= MAX_SLEEP_AVG && Scheduler.PrioAt(Head(qs, k), later) > k
  }

  /** With normal tasks, the one just picked is preempted at once exactly when its priority is behind its queue's. */
  lemma PickedYieldsIff(s: Scheduler, now: u32)
    requires s.Sound() && Normal(s.processes) && s.current == s.Pick()
    ensures s.VerdictOf(now) == Yield <==> s.current == s.idle || s.current.prio > s.current.linkedIn
    ensures s.current == s.idle <==> s.active.nrActive == 0
    ensures var qs := s.active.queue[..];
      s.current != s.idle ==> Best(qs) < |qs| && s.current == Head(qs, Best(qs)) && s.current.linkedIn == Best(qs)
  {
    hide PrioArray.Linked, Members, Total, Distinct, PidMap.Valid;
    var a := s.active;
    CountedIsQueued(a);
    if a.nrActive > 0 {
      s.QueuedIsLive(a, a.highestPrio, a.queue[a.highestPrio][0]);
    }
    s.PickIsTask();
  }

  /** Where the running task is, and that the verdict on a normal one does not depend on the clock. */
  lemma RunningTask(s: Scheduler, now: u32)
    requires s.Sound() && Normal(s.processes)
    ensures (s.active == s.first || s.active == s.second) && s.active != s.expired && Distinct(s.processes)
    ensures s.current in s.processes || s.current == s.idle
    ensures s.current in s.processes ==> s.current.inArray == s.active || s.current.inArray == s.expired
    ensures s.VerdictOf(now) == s.VerdictOf(0) != Requeue
  {
    hide PrioArray.Linked, PrioArray.Indexed, Members, Distinct, PidMap.Valid;
    if s.current in s.processes {
      s.HomeOf(s.current);
    }
  }

  /**
   * A task was picked, from the other array if `a`, the active one, had become empty, and its priority at time `later`
   * worked out.
   */
  twostate predicate Rescheduled(s: Scheduler, a: PrioArray, later: u32)
    reads s`active, s`current, s.current`prio, a`nrActive, a.queue
  {
    var p := s.current;
    && (if a.nrActive == 0 then s.active != a else s.active == a)
    && a.queue[..] == old(Left(s))
    && p in old(s.Tasks())
    && old(p.sleepAvg) <= MAX_SLEEP_AVG && p.prio == old(Scheduler.PrioAt(p, later))
  }

  /** What a tick does to the running task's slice and place, if all tasks are normal ones, and which it picks. */
  method SliceTick(s: Scheduler, now: u32, later: u32) returns (verdict: Verdict)
    requires s.Sound() && s.Sliced() && Normal(s.processes) && (s.VerdictOf(0) == Expire ==> s.KeepsIndex(s.current))
    modifies s`timestampLastTick, s`history, s`active, s`expired, s`current, s.Arrays()
    modifies s.current`inArray, s.current`linkedIn, s.current`timeSlice
    modifies s.Tasks()`sleepAvg, s.Tasks()`prio, s.Tasks()`timestamp
    ensures s.Sound() && s.Sliced() && Normal(s.processes) && s.history == old(s.history) + [old(s.current)]
    ensures verdict == old(s.VerdictOf(0)) && (verdict == Stay ==> s.active == old(s.active) && s.VerdictOf(0) != Yield)
    ensures verdict != Stay ==> s.current == s.Pick() && Rescheduled(s, old(s.active), later)
    ensures var a, p := old(s.active), old(s.current);
      match verdict
      case Yield => p.inArray == old(p.inArray) && p.timeSlice == old(p.timeSlice)
      case Stay => p in s.processes && p.inArray == old(p.inArray) == a && p.timeSlice < old(p.timeSlice)
      case Expire => p in s.processes && old(p.inArray) == a && p.inArray != a && old(p.timeSlice) > 0
      case Requeue => false
  {
    hide Added, Removed, BasicTimeslice, DynamicPrio, AfterSleep, AfterRun, Scheduler.Core, Scheduler.Keyed,
         Scheduler.Pick, Scheduler.Stamped, Scheduler.KeepsIndex, Scheduler.PrioAt;
    RunningTask(s, now);
    verdict := s.Tick(now, later);
  }

  /** The task picked is idle, or its priority, worked out from the state before, is behind that of its queue. */
  twostate predicate Behind(s: Scheduler, later: u32)
    reads s`current, s.current`linkedIn
  {
    var p := s.current;
    p == s.idle || (p in old(s.Tasks()) && old(p.sleepAvg) <= MAX_SLEEP_AVG &&
                    old(Scheduler.PrioAt(p, later)) > p.linkedIn)
  }

  /**
   * The same, and what comes of the pick: the task is preempted at once exactly when it is behind; if the arrays were
   * not exchanged, exactly when it was overtaken.
   */
  method PickTick(s: Scheduler, now: u32, later: u32) returns (verdict: Verdict)
    requires s.Sound() && s.Sliced() && Normal(s.processes) && (s.VerdictOf(0) == Expire ==> s.KeepsIndex(s.current))
    modifies s`timestampLastTick, s`history, s`active, s`expired, s`current, s.Arrays()
    modifies s.current`inArray, s.current`linkedIn, s.current`timeSlice
    modifies s.Tasks()`sleepAvg, s.Tasks()`prio, s.Tasks()`timestamp
    ensures s.Sound() && s.Sliced() && Normal(s.processes) && s.history == old(s.history) + [old(s.current)]
    ensures verdict == old(s.VerdictOf(0))
    ensures var a := old(s.active); verdict != Stay ==> if a.nrActive == 0 then s.active != a else s.active == a
    ensures verdict == Stay ==> s.active == old(s.active) && s.VerdictOf(0) != Yield
    ensures verdict != Stay ==> (s.VerdictOf(0) == Yield <==> Behind(s, later))
    ensures verdict != Stay && s.active == old(s.active) ==> (s.VerdictOf(0) == Yield <==> old(Overtaken(s, later)))
    ensures var a, p := old(s.active), old(s.current);
      match verdict
      case Yield => p.inArray == old(p.inArray) && p.timeSlice == old(p.timeSlice)
      case Stay => p in s.processes && p.inArray == old(p.inArray) == a && p.timeSlice < old(p.timeSlice)
      case Expire => p in s.processes && old(p.inArray) == a && p.inArray != a && old(p.timeSlice) > 0
      case Requeue => false
  {
    hide Scheduler.Core, Scheduler.Sliced, Scheduler.VerdictOf, Scheduler.Pick, Scheduler.KeepsIndex, Normal, Left;
    RunningTask(s, now);
    verdict := SliceTick(s, now, later);
    if verdict != Stay {
      PickedYieldsIff(s, 0);
    }
  }

  /** What a tick takes off the slices in the array that is active before it. */
  method WeighTick(s: Scheduler, now: u32, later: u32) returns (verdict: Verdict)
    requires s.Sound() && s.Sliced() && Normal(s.processes) && (s.VerdictOf(0) == Expire ==> s.KeepsIndex(s.current))
    modifies s`timestampLastTick, s`history, s`active, s`expired, s`current, s.Arrays()
    modifies s.current`inArray, s.current`linkedIn, s.current`timeSlice
    modifies s.Tasks()`sleepAvg, s.Tasks()`prio, s.Tasks()`timestamp
    ensures s.Sound() && s.Sliced() && Normal(s.processes) && s.history == old(s.history) + [old(s.current)]
    ensures verdict == old(s.VerdictOf(0))
    ensures var a := old(s.active); verdict != Stay ==> if a.nrActive == 0 then s.active != a else s.active == a
    ensures verdict == Stay ==> s.active == old(s.active) && s.VerdictOf(0) != Yield
    ensures verdict != Stay && s.active == old(s.active) ==> (s.VerdictOf(0) == Yield <==> old(Overtaken(s, later)))
    ensures var a, w := old(s.active), Sum(Weights(s.processes, old(s.active)));
      if verdict == Yield then w == old(Sum(Weights(s.processes, s.active)))
      else w < old(Sum(Weights(s.processes, s.active)))
    ensures verdict == Stay || verdict == Yield ==> old(s.current).inArray == old(s.current.inArray)
  {
    hide Distinct, Sum, Weights, Normal, Overtaken, Scheduler.Core, Scheduler.Sliced, Scheduler.VerdictOf,
         Scheduler.KeepsIndex;
    RunningTask(s, now);
    ghost var ps, a, p := s.processes, s.active, s.current;
    ghost var w := Weights(ps, a);
    verdict := PickTick(s, now, later);
    WorkChange(w, Weights(ps, a), ps, p);
    if p in ps {
      ghost var k :| 0 <= k < |ps| && ps[k] == p;
      assert w[k] == old(Weight(p, a));
    }
  }

  /**
   * A tick with normal tasks: either the arrays are exchanged, and then the running task was the last one in the active
   * array; or only the running task may have left the active array, and the work left has shrunk, unless the task
   * picked was overtaken.  Then, and only then, that task is preempted at once.
   */
  method EpochTick(s: Scheduler, now: u32, later: u32)
    requires s.Sound() && s.Sliced() && Normal(s.processes) && (s.VerdictOf(0) == Expire ==> s.KeepsIndex(s.current))
    modifies s`timestampLastTick, s`history, s`active, s`expired, s`current, s.Arrays()
    modifies s.current`inArray, s.current`linkedIn, s.current`timeSlice
    modifies s.Tasks()`sleepAvg, s.Tasks()`prio, s.Tasks()`timestamp
    ensures s.Sound() && s.Sliced() && Normal(s.processes) && s.history == old(s.history) + [old(s.current)]
    ensures s.active != old(s.active) ==> old(Waiting(s)) <= {old(s.current)}
    ensures s.active == old(s.active) ==>
      && old(Waiting(s)) - {old(s.current)} <= Waiting(s)
      && (Work(s) < old(Work(s)) || (Work(s) == old(Work(s)) && old(Overtaken(s, later))))
    ensures s.active == old(s.active) && old(s.VerdictOf(0)) != Stay ==>
      (s.VerdictOf(0) == Yield <==> old(Overtaken(s, later)))
  {
    hide Distinct, Sum, Weights, Normal, Overtaken, Scheduler.Core, Scheduler.Sliced, Scheduler.VerdictOf,
         Scheduler.KeepsIndex;
    RunningTask(s, now);
    ghost var a := s.active;
    var verdict := WeighTick(s, now, later);
    if a.nrActive == 0 {
      NoneIn(s, a);
    }
  }

  /**
   * What a run of one epoch stops at: a task whose slice is used up is alone in a queue of another priority than its
   * own, or the next tick picks a task that has been overtaken.
   */
  predicate Blocked(s: Scheduler, r: Reading)
    reads s`current, s`active, s`expired, s.active, s.active.queue, s.current, Members(s.active.queue[..])
    reads s.first.queue, s.second.queue
  {
    (s.VerdictOf(0) == Expire && !s.KeepsIndex(s.current)) || Overtaken(s, r.later)
  }

  /**
   * A run of ticks that ends with the epoch, with the last reading, or before a tick that is blocked; `ran` are the
   * tasks that had the processor.  There cannot be more ticks than there is work without the arrays being exchanged,
   * and by then every task that was in the active array has been the running one.
   */
  method RunEpoch(s: Scheduler, clock: seq<Reading>) returns (ran: seq<Task>)
    requires s.Sound() && s.Sliced() && Normal(s.processes)
    modifies s, s.Arrays(), s.Tasks()
    ensures s.Sound() && s.Sliced() && Normal(s.processes) && s.processes == old(s.processes)
    ensures s.history == old(s.history) + ran && |ran| <= |clock| && |ran| <= old(Work(s)) + 1
    ensures s.active == old(s.active) ==>
      |ran| + Work(s) <= old(Work(s)) && (|ran| == |clock| || Blocked(s, clock[|ran|]))
    ensures s.active != old(s.active) ==>
      forall t :: t in old(s.processes) && old(t.inArray == s.active) ==> t in ran
  {
    hide Scheduler.Core, Scheduler.Sliced, Waiting, Work, Normal, Overtaken, Scheduler.VerdictOf;
    ran := [];
    ghost var work, waiting := Work(s), Waiting(s);
    WaitingMeans(s);
    var a := s.active;
    while |ran| < |clock| && s.active == a && !Blocked(s, clock[|ran|])
      invariant s.Sound() && s.Sliced() && Normal(s.processes) && s.processes == old(s.processes)
      invariant s.history == old(s.history) + ran && |ran| <= |clock| && |ran| <= work + 1
      invariant s.active == a ==> |ran| + Work(s) <= work && waiting <= Waiting(s) + Elements(ran)
      invariant s.active != a ==> waiting <= Elements(ran)
      decreases |clock| - |ran|
    {
      var reading := clock[|ran|];
      ran := ran + [s.current];
      EpochTick(s, reading.now, reading.later);
    }
  }
}
