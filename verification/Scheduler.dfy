/**
 * The O(1) scheduler: two priority arrays, the process list and the counters, stepped by fork, tick, exit and kill
 * (kernel/pc/pc.c, include/zjunix/pc.h).
 */
module SchedulerModule {
  import opened Common
  import opened PrioArrayModule
  import opened Pid

  const MIN_TIMESLICE := 1
  const MAX_TIMESLICE := 150
  const MIN_RT_TIMESLICE := 500
  const MAX_RT_TIMESLICE := 1200
  const MAX_SLEEP_AVG := 5555
  const STARVATION_LIMIT := MAX_SLEEP_AVG
  const CHILD_PENALTY := 60
  const PARENT_PENALTY := 100

  // ---- arithmetic of priorities and times --------------------------------------------------------------------

  /** Unsigned subtraction. */
  function Sub32(x: u32, y: u32): u32 {
    (x - y) % 0x1_0000_0000
  }

  /** The time between two readings of a clock that may have passed its end in between. */
  lemma TimeBetween(start: u32, elapsed: u32)
    ensures Sub32(Add32(start, elapsed), start) == elapsed
  {
  }

  function Max(x: int, y: int): int
  {
    if x < y then y else x
  }

  /** `get_bonus`: which fifth of MAX_SLEEP_AVG the average lies in. */
  function Bonus(sleepAvg: u32): int
    requires sleepAvg <= MAX_SLEEP_AVG
  {
    if sleepAvg <= MAX_SLEEP_AVG / 5 then -2
    else if sleepAvg <= MAX_SLEEP_AVG / 5 * 2 then -1
    else if sleepAvg <= MAX_SLEEP_AVG / 5 * 3 then 0
    else if sleepAvg <= MAX_SLEEP_AVG / 5 * 4 then 1
    else 2
  }

  /**
   * `dynamic_prio`.  A normal task's result stays in the normal range and, below the last priority, at most four
   * steps behind its static priority and never ahead of it.
   */
  function DynamicPrio(staticPrio: u32, rtPriority: u32, sleepAvg: u32): (r: u32)
    requires sleepAvg <= MAX_SLEEP_AVG
    ensures MAX_RT_PRIO < staticPrio ==> MAX_RT_PRIO < r < MAX_PRIO
    ensures MAX_RT_PRIO < staticPrio < MAX_PRIO ==> staticPrio <= r <= staticPrio + 4
  {
    if staticPrio <= MAX_RT_PRIO then rtPriority
    else
      Max(Min(staticPrio - Bonus(sleepAvg) + 2, MAX_PRIO - 1), MAX_RT_PRIO + 1)
  }

  /**
   * A normal task that has slept up to 1111 has the priority four behind its static one, and it gains one step behind
   * each of 1111, 2222, 3333 and 4444, except while the last priority, 63, cuts the steps off.
   */
  lemma PriorityBySleep(staticPrio: u32, rtPriority: u32, sleepAvg: u32)
    requires 50 <= staticPrio <= 63 && sleepAvg <= 5555
    ensures var r := DynamicPrio(staticPrio, rtPriority, sleepAvg);
      && (sleepAvg <= 1111 ==> r == Min(staticPrio + 4, 63))
      && (1111 < sleepAvg <= 2222 ==> r == Min(staticPrio + 3, 63))
      && (2222 < sleepAvg <= 3333 ==> r == Min(staticPrio + 2, 63))
      && (3333 < sleepAvg <= 4444 ==> r == Min(staticPrio + 1, 63))
      && (4444 < sleepAvg ==> r == staticPrio)
    ensures sleepAvg < 5555 ==>
      DynamicPrio(staticPrio, rtPriority, sleepAvg) - DynamicPrio(staticPrio, rtPriority, sleepAvg + 1) ==
      if || (sleepAvg == 1111 && staticPrio <= 59) || (sleepAvg == 2222 && staticPrio <= 60)
         || (sleepAvg == 3333 && staticPrio <= 61) || (sleepAvg == 4444 && staticPrio <= 62) then 1 else 0
  {
  }

  /** More sleep never makes a priority worse; idle's stays the last one, a real-time task's its own. */
  lemma MoreSleepIsNotWorse(staticPrio: u32, rtPriority: u32, less: u32, more: u32)
    requires less <= more <= 5555
    ensures DynamicPrio(staticPrio, rtPriority, more) <= DynamicPrio(staticPrio, rtPriority, less)
    ensures staticPrio == 64 ==> DynamicPrio(staticPrio, rtPriority, less) == 63
    ensures staticPrio <= 49 ==> DynamicPrio(staticPrio, rtPriority, less) == rtPriority
  {
  }

  /** `basic_timeslice`, in unsigned arithmetic. */
  function BasicTimeslice(staticPrio: u32, rtPriority: u32, prio: u32): (r: u32)
    ensures 1 <= r <= MAX_RT_TIMESLICE && (staticPrio <= MAX_RT_PRIO ==> MIN_RT_TIMESLICE <= r)
    ensures staticPrio > MAX_RT_PRIO ==> r <= MAX_TIMESLICE
  {
    if staticPrio <= MAX_RT_PRIO then
      Min(Max(Sub32(MAX_PRIO, rtPriority) * 20 % 0x1_0000_0000, MIN_RT_TIMESLICE), MAX_RT_TIMESLICE)
    else
      Min(Max(Sub32(MAX_PRIO, prio) * 5 % 0x1_0000_0000, MIN_TIMESLICE), MAX_TIMESLICE)
  }

  /**
   * Slices by priority: 5 to 70 for the normal ones, from the last to the first, 1 for idle, and for the real-time ones
   * 20 less for each step behind priority 4, up to priority 39.
   */
  lemma SliceByPriority(staticPrio: u32, rtPriority: u32, prio: u32)
    ensures var r := BasicTimeslice(staticPrio, rtPriority, prio);
      && (50 <= staticPrio && 50 <= prio <= 63 ==> r == 320 - 5 * prio)
      && (50 <= staticPrio && prio == 64 ==> r == 1)
      && (staticPrio <= 49 && rtPriority <= 4 ==> r == 1200)
      && (staticPrio <= 49 && 4 <= rtPriority <= 39 ==> r == 1280 - 20 * rtPriority)
      && (staticPrio <= 49 && 39 <= rtPriority <= 64 ==> r == 500)
  {
    assert prio <= MAX_PRIO ==> Sub32(MAX_PRIO, prio) == MAX_PRIO - prio;
    assert rtPriority <= MAX_PRIO ==> Sub32(MAX_PRIO, rtPriority) == MAX_PRIO - rtPriority;
    hide Sub32;
  }

  /** The policy `sched_fork` gives. */
  function PolicyOf(staticPrio: u32): Policy {
    if staticPrio > MAX_RT_PRIO then SchedNormal
    else if staticPrio > MAX_RT_PRIO / 2 then SchedRr
    else SchedFifo
  }

  /** The sleep average of a task picked after `elapsed` ticks. */
  function AfterSleep(sleepAvg: u32, elapsed: u32): (r: u32)
    ensures r <= MAX_SLEEP_AVG || (elapsed == 0 && r == sleepAvg)
  {
    if elapsed > 0 then Min(sleepAvg + Min(elapsed, MAX_SLEEP_AVG), MAX_SLEEP_AVG) else sleepAvg
  }

  /** The sleep average of a task that had the processor for `elapsed` ticks. */
  function AfterRun(sleepAvg: u32, elapsed: u32): (r: u32)
    ensures r <= sleepAvg
  {
    Max(sleepAvg - Min(elapsed, MAX_SLEEP_AVG), 0)
  }

  lemma PolicyByPriority(staticPrio: u32)
    ensures PolicyOf(staticPrio) == SchedFifo <==> staticPrio <= 24
    ensures PolicyOf(staticPrio) == SchedRr <==> 25 <= staticPrio <= 49
    ensures PolicyOf(staticPrio) == SchedNormal <==> 50 <= staticPrio
  {
  }

  /** Sleep adds to the average up to 5555, running takes from it down to 0. */
  lemma AverageAfter(sleepAvg: u32, elapsed: u32)
    requires sleepAvg <= 5555
    ensures AfterSleep(sleepAvg, elapsed) == if sleepAvg + elapsed <= 5555 then sleepAvg + elapsed else 5555
    ensures AfterRun(sleepAvg, elapsed) == if elapsed <= sleepAvg then sleepAvg - elapsed else 0
  {
  }

  /** What the next tick does with the current task. */
  datatype Verdict = Stay | Yield | Requeue | Expire

  class Scheduler {
    const first: PrioArray
    const second: PrioArray
    const idle: Task
    const pids: PidMap
    var active: PrioArray
    var expired: PrioArray
    var processes: seq<Task>
    var nrProcess: nat
    var nrRunning: nat
    var current: Task
    var timestampLastTick: u32
    /** The tasks that had the processor, tick by tick. */
    ghost var history: seq<Task>

    /** `init_pc`: no task but idle, which runs. */
    constructor ()
      ensures Valid() && Sliced() && processes == [] && current == idle && history == [] && timestampLastTick == 0
      ensures pids.used == {IDLE_PID} && pids.nextPid == INIT_PID
      ensures fresh(Arrays()) && fresh(idle) && fresh(pids) && fresh(pids.pidmap)
    {
      hide PrioArray.Indexed, PrioArray.Linked, PidMap.Valid, Members, Scheduler.Valid;
      var i := new Task(IDLE_PID);
      i.staticPrio, i.prio := MAX_PRIO, MAX_PRIO;
      var p := new PidMap();
      var a := new PrioArray();
      var b := new PrioArray();
      idle, current, pids := i, i, p;
      first, second, active, expired := a, b, a, b;
      processes := [];
      nrProcess, nrRunning, timestampLastTick := 0, 0, 0;
      history := [];
      new;
      EmptyIsValid();
    }

    lemma EmptyIsValid()
      requires Apart() && Indexed() && first.Linked() && second.Linked() && first.nrActive == second.nrActive == 0
      requires Members(first.queue[..]) == {} && Members(second.queue[..]) == {}
      requires processes == [] && nrProcess == nrRunning == 0 && current == idle
      requires pids.Valid() && idle.pid == IDLE_PID && idle.staticPrio == MAX_PRIO && idle.sleepAvg == 0
      ensures Valid()
    {
      hide PrioArray.Indexed, PrioArray.Linked, PidMap.Valid, Members;
      assert Elements(processes) == {};
    }

    ghost function Arrays(): set<object> {
      {first, first.queue, first.bitmap, second, second.queue, second.bitmap}
    }

    ghost function Tasks(): set<Task>
      reads `processes
    {
      Elements(processes) + {idle}
    }

    /** The two arrays and what they are made of are six different objects; one is active and the other expired. */
    ghost predicate Apart()
      reads `active, `expired
    {
      && first.Shape() && second.Shape() && pids.pidmap.Length == PID_BYTES
      && first != second && first.queue != second.queue
      && first.bitmap != second.bitmap && pids.pidmap != first.bitmap && pids.pidmap != second.bitmap
      && ((active == first && expired == second) || (active == second && expired == first))
    }

    /**
     * Every live task is in exactly one queue of exactly one array, and knows which; the counters agree with the
     * lists.
     */
    ghost predicate Lists()
      reads `processes, `nrProcess, `nrRunning, first, second, first.queue, second.queue
      reads Members(first.queue[..])`inArray, Members(first.queue[..])`linkedIn
      reads Members(second.queue[..])`inArray, Members(second.queue[..])`linkedIn
    {
      && first.Linked() && second.Linked()
      && Distinct(processes)
      && Elements(processes) == Members(first.queue[..]) + Members(second.queue[..])
      && nrProcess == |processes|
      && nrRunning == |processes|
      && nrRunning == first.nrActive + second.nrActive
      && idle !in processes
    }

    /** Bitmaps and cached minima agree with the queues. */
    ghost predicate Indexed()
      reads Arrays()
    {
      first.Indexed() && second.Indexed()
    }

    /** Priorities and sleep average in range. */
    static ghost predicate Fits(t: Task)
      reads t`staticPrio, t`prio, t`rtPriority, t`sleepAvg
    {
      t.Sane() && t.sleepAvg <= MAX_SLEEP_AVG && t.staticPrio <= MAX_PRIO && (t.IsRt() || t.prio > MAX_RT_PRIO)
    }

    ghost predicate Fit()
      reads `processes, Tasks()`staticPrio, Tasks()`prio, Tasks()`rtPriority, Tasks()`sleepAvg
    {
      && idle.staticPrio == MAX_PRIO && idle.sleepAvg <= MAX_SLEEP_AVG
      && forall t :: t in processes ==> Fits(t)
    }

    /** Each task is queued under its present priority. */
    predicate Keyed()
      reads `processes, Tasks()`staticPrio, Tasks()`prio, Tasks()`rtPriority, Tasks()`linkedIn
    {
      forall t :: t in processes ==> t.linkedIn == t.Key()
    }

    /** Real-time tasks are, for their priorities never change, and normal ones are queued behind all those. */
    ghost predicate InClass()
      reads `processes, Tasks()`staticPrio, Tasks()`prio, Tasks()`rtPriority, Tasks()`linkedIn
    {
      forall t :: t in processes ==> if t.IsRt() then t.linkedIn == t.Key() else t.linkedIn > MAX_RT_PRIO
    }

    /** Live tasks have different process numbers, all of them taken. */
    static ghost predicate Numbered(ps: seq<Task>, used: set<u32>) {
      && (forall t :: t in ps ==> 1 <= t.pid < PID_NUM && t.pid in used)
      && (forall t, u :: t in ps && u in ps && t.pid == u.pid ==> t == u)
    }

    /** One more task keeps that exactly when there was a number for it. */
    static lemma NumberedAppend(ps: seq<Task>, used: set<u32>, t: Task, used': set<u32>)
      requires Numbered(ps, used) && t !in ps
      requires if t.pid == NO_PID then used' == used
               else 1 <= t.pid < PID_NUM && t.pid !in used && used' == used + {t.pid}
      ensures Numbered(ps + [t], used') <==> t.pid != NO_PID
    {
      assert t in ps + [t];
    }

    ghost predicate PidsOk()
      reads `processes, pids, pids.pidmap
    {
      pids.Valid() && idle.pid == IDLE_PID && Numbered(processes, pids.used)
    }

    /** All that depends neither on bitmaps and cached minima nor on which task runs. */
    ghost predicate Settled()
      reads `active, `expired, `processes, `nrProcess, `nrRunning, Arrays(), Tasks(), pids, pids.pidmap
      reads Members(first.queue[..]), Members(second.queue[..])
    {
      Apart() && Lists() && Fit() && InClass() && PidsOk()
    }

    /** And the bitmaps and minima are right. */
    ghost predicate Core()
      reads `active, `expired, `processes, `nrProcess, `nrRunning, Arrays(), Tasks(), pids, pids.pidmap
      reads Members(first.queue[..]), Members(second.queue[..])
    {
      Settled() && Indexed()
    }

    /** And the current task is a live one or idle. */
    ghost predicate Sound()
      reads `active, `expired, `processes, `nrProcess, `nrRunning, `current, Arrays(), Tasks(), pids, pids.pidmap
      reads Members(first.queue[..]), Members(second.queue[..])
    {
      Core() && current in Tasks()
    }

    /** And every task is queued under its present priority. */
    ghost predicate Valid()
      reads `active, `expired, `processes, `nrProcess, `nrRunning, `current, Arrays(), Tasks(), pids, pids.pidmap
      reads Members(first.queue[..]), Members(second.queue[..])
    {
      Sound() && Keyed()
    }

    /** All but what concerns process numbers. */
    ghost predicate Orderly()
      reads `active, `expired, `processes, `nrProcess, `nrRunning, `current, Arrays(), Tasks()
      reads Members(first.queue[..]), Members(second.queue[..])
    {
      Apart() && Lists() && Indexed() && Fit() && InClass() && current in Tasks()
    }

    lemma SoundParts()
      ensures Sound() <==> Orderly() && PidsOk()
    {
    }

    /**
     * Every live task has some of its slice left, and no slice is too large.  That of idle is 0 until the first fork,
     * which makes a task with the number of init and thus with a slice of its own.
     */
    ghost predicate Sliced()
      reads `processes, Tasks()`timeSlice, pids
    {
      && idle.timeSlice <= MAX_RT_TIMESLICE
      && (idle.timeSlice == 0 ==> processes == [] && INIT_PID !in pids.used && pids.nextPid == INIT_PID)
      && forall t :: t in processes ==> 1 <= t.timeSlice <= MAX_RT_TIMESLICE
    }

    /** Taking the task out of its queue leaves bitmap and minimum right. */
    predicate KeepsIndex(p: Task)
      reads first.queue, second.queue, p`prio, p`linkedIn, p`inArray
    {
      if p.inArray == first then first.Detachable(p) else second.Detachable(p)
    }

    /** The priority that `recalc_task_prio` will give. */
    static function PrioAt(p: Task, now: u32): u32
      requires p.sleepAvg <= MAX_SLEEP_AVG
      reads p`staticPrio, p`rtPriority, p`sleepAvg, p`timestamp
    {
      if p.IsRt() then p.rtPriority
      else DynamicPrio(p.staticPrio, p.rtPriority, AfterSleep(p.sleepAvg, Sub32(now, p.timestamp)))
    }

    /** A task picked at time `now` will still be queued under its priority. */
    static predicate KeepsKey(p: Task, now: u32)
      requires p.sleepAvg <= MAX_SLEEP_AVG
      reads p`staticPrio, p`rtPriority, p`sleepAvg, p`timestamp, p`linkedIn
    {
      p.IsRt() || PrioAt(p, now) == p.linkedIn
    }

    lemma AveragesFit()
      requires Sound()
      ensures forall t :: t in Tasks() ==> t.sleepAvg <= MAX_SLEEP_AVG
    {
    }

    /** While keys name queues, every task can be taken out safely. */
    lemma KeyedKeepsIndex(p: Task)
      requires Sound() && Keyed() && p in processes
      ensures KeepsIndex(p)
    {
    }

    /** The task `schedule` picks: the head of the best queue.  A best priority of 0 gives idle, like none at all. */
    ghost function Pick(): Task
      requires Apart() && Indexed()
      reads `active, `expired, Arrays()
    {
      if 0 < active.highestPrio < MAX_PRIO then active.queue[active.highestPrio][0] else idle
    }

    /** What is queued is a live task. */
    lemma QueuedIsLive(a: PrioArray, k: nat, t: Task)
      requires Lists() && (a == first || a == second) && k < MAX_PRIO && t in a.queue[k]
      ensures t in processes && t.inArray == a && t.linkedIn == k
    {
      assert t in Members(a.queue[..]);
      assert t in Elements(processes);
    }

    lemma PickIsTask()
      requires Lists() && Apart() && Indexed()
      ensures Pick() in Tasks()
      ensures Pick() != idle ==> Pick().inArray == active && Pick().linkedIn == active.highestPrio
    {
      if 0 < active.highestPrio < MAX_PRIO {
        assert Pick() in active.queue[active.highestPrio];
      }
    }

    /** `recalc_task_prio`. */
    static method RecalcTaskPrio(p: Task, now: u32)
      requires p.sleepAvg <= MAX_SLEEP_AVG && (p.IsRt() ==> p.rtPriority == p.prio)
      modifies p`sleepAvg, p`prio
      ensures p.sleepAvg == AfterSleep(old(p.sleepAvg), Sub32(now, p.timestamp))
      ensures p.prio == old(PrioAt(p, now))
    {
      var sleepTime := Sub32(now, p.timestamp);
      if sleepTime > MAX_SLEEP_AVG {
        sleepTime := MAX_SLEEP_AVG;
      }
      if sleepTime > 0 {
        p.sleepAvg := p.sleepAvg + sleepTime;
        if p.sleepAvg > MAX_SLEEP_AVG {
          p.sleepAvg := MAX_SLEEP_AVG;
        }
      }
      if !p.IsRt() {
        p.prio := DynamicPrio(p.staticPrio, p.rtPriority, p.sleepAvg);
      }
    }

    /** The choice of the next task in `schedule`; the arrays are exchanged when the active one is empty. */
    method Choose() returns (next: Task)
      requires Sound()
      modifies `active, `expired
      ensures Sound() && next == Pick() && next in Tasks()
      ensures if old(active.nrActive) == 0 then active == old(expired) && expired == old(active)
              else active == old(active) && expired == old(expired)
    {
      hide PrioArray.Linked, Members, Distinct, PidMap.Valid, Task.Key, Task.Sane;
      if active.nrActive == 0 {
        active, expired := expired, active;
      }
      PickIsTask();
      if active.highestPrio < MAX_PRIO && active.highestPrio > 0 {
        next := active.queue[active.highestPrio][0];
      } else {
        next := idle;
      }
    }

    /**
     * What `schedule` does to the times of the two tasks: the one that stops has its running time taken off its sleep
     * average, the one that starts has its waiting time added.
     */
    static twostate predicate Stamped(prev: Task, next: Task, now: u32)
      reads prev, next
    {
      var slept := AfterSleep(old(next.sleepAvg), Sub32(now, old(next.timestamp)));
      && prev.sleepAvg == AfterRun(if prev == next then slept else old(prev.sleepAvg), Sub32(now, old(prev.timestamp)))
      && (prev != next ==> next.sleepAvg == slept)
      && prev.timestamp == now && next.timestamp == now
    }

    /** And to their priorities: that of the one that starts is worked out anew, with the waiting time added. */
    static twostate predicate Accounted(prev: Task, next: Task, now: u32)
      requires old(next.sleepAvg) <= MAX_SLEEP_AVG
      reads prev, next
    {
      && Stamped(prev, next, now)
      && (prev != next ==> prev.prio == old(prev.prio))
      && next.prio == old(PrioAt(next, now))
    }

    /** The accounts that `schedule` keeps. */
    static method Charge(prev: Task, next: Task, now: u32)
      requires next.sleepAvg <= MAX_SLEEP_AVG && prev.sleepAvg <= MAX_SLEEP_AVG
      requires next.IsRt() ==> next.rtPriority == next.prio
      modifies {prev, next}`sleepAvg, {prev, next}`prio, {prev, next}`timestamp
      ensures Accounted(prev, next, now)
    {
      var runTime: u32;
      if Sub32(now, prev.timestamp) < MAX_SLEEP_AVG {
        runTime := Sub32(now, prev.timestamp);
      } else {
        runTime := MAX_SLEEP_AVG;
      }
      RecalcTaskPrio(next, now);
      if prev.sleepAvg < runTime {
        prev.sleepAvg := 0;
      } else {
        prev.sleepAvg := prev.sleepAvg - runTime;
      }
      prev.timestamp := now;
      if prev != next {
        next.timestamp := now;
      }
    }

    /** The task `find_next_task` picks: unlike `schedule` it does take a task of priority 0. */
    ghost function PickAny(): Task
      requires Apart() && Indexed()
      reads `active, `expired, Arrays()
    {
      if active.highestPrio < MAX_PRIO then active.queue[active.highestPrio][0] else idle
    }

    /**
     * Who is picked: the head of the first queue that is not empty, if there is one, except that `schedule` passes
     * over the whole array, and lets idle run, while a task of priority 0 is queued.
     */
    lemma PickMeans(k: nat)
      requires Apart() && Indexed() && k < MAX_PRIO
      ensures active.queue[k] != [] && (forall j :: 0 <= j < k ==> active.queue[j] == []) ==>
        PickAny() == active.queue[k][0] && Pick() == if k == 0 then idle else active.queue[k][0]
      ensures (forall j :: 0 <= j < MAX_PRIO ==> active.queue[j] == []) ==> PickAny() == Pick() == idle
    {
    }

    /** The chosen task is the current one from now on. */
    method Become(next: Task)
      requires Core() && next in Tasks()
      modifies `current
      ensures Sound() && current == next && Keyed() == old(Keyed())
      ensures Pick() == old(Pick()) && PickAny() == old(PickAny())
    {
      hide Members, PrioArray.Indexed, PrioArray.Linked, PidMap.Valid, Distinct, Scheduler.Fit, Scheduler.InClass,
           Scheduler.Keyed;
      current := next;
    }

    /** The accounts change no list; only the task that starts may end up with a key that is not its queue. */
    method Account(prev: Task, next: Task, now: u32)
      requires Core() && prev in Tasks() && next in Tasks() && prev.sleepAvg <= MAX_SLEEP_AVG
      modifies {prev, next}`sleepAvg, {prev, next}`prio, {prev, next}`timestamp
      ensures Core() && old(next.sleepAvg) <= MAX_SLEEP_AVG && Accounted(prev, next, now) && Pick() == old(Pick())
      ensures old(Keyed()) ==> (Keyed() <==> next == idle || old(KeepsKey(next, now)))
    {
      hide Scheduler.PidsOk, PrioArray.Indexed, PrioArray.Linked, Members, Distinct, DynamicPrio, AfterRun,
           AfterSleep, Sub32, PrioArray.Shape;
      Charge(prev, next, now);
    }

    /** The rest of `schedule`. */
    method Switch(next: Task, now: u32)
      requires Sound() && next in Tasks() && next == Pick()
      modifies {current, next}`sleepAvg, {current, next}`prio, {current, next}`timestamp, `current
      ensures Accounted(old(current), next, now) && Sound() && current == next == Pick()
      ensures old(Keyed()) ==> (Keyed() <==> next == idle || old(KeepsKey(next, now)))
    {
      hide DynamicPrio, AfterRun, AfterSleep, Sub32, Scheduler.Core, Scheduler.Keyed, Scheduler.Pick,
           Scheduler.KeepsKey, Scheduler.PickAny, Scheduler.PrioAt;
      AveragesFit();
      Account(current, next, now);
      Become(next);
    }

    /**
     * `schedule`: the lists and indexes stay right, whatever keys there are.  The task picked gets a new priority
     * although it stays queued where it is, so keys still name queues exactly when its sleep average and time stamp
     * from before give it the priority of its queue.
     */
    method Schedule(now: u32)
      requires Sound()
      modifies `active, `expired, `current, Tasks()`sleepAvg, Tasks()`prio, Tasks()`timestamp
      ensures Sound()
      ensures if old(active.nrActive) == 0 then active == old(expired) && expired == old(active)
              else active == old(active) && expired == old(expired)
      ensures current == Pick() && current in Tasks()
      ensures var p := current; old(p.sleepAvg) <= MAX_SLEEP_AVG
      ensures var p := current; old(Keyed()) ==> (Keyed() <==> p == idle || old(KeepsKey(p, now)))
      ensures var p := current; Stamped(old(current), p, now) && p.prio == old(PrioAt(p, now))
      ensures forall t :: t in old(processes) && t != current ==>
        && t.prio == old(t.prio)
        && (t != old(current) ==> t.sleepAvg == old(t.sleepAvg) && t.timestamp == old(t.timestamp))
    {
      hide Scheduler.PidsOk, PrioArray.Indexed, PrioArray.Linked, Members, Distinct;
      var next := Choose();
      Switch(next, now);
    }

    // ---- leaving -------------------------------------------------------------------------------------------

    /** A live task is in one of the two arrays, the one it knows. */
    lemma HomeOf(p: Task)
      requires Apart() && Lists() && p in processes
      ensures p.inArray == first || p.inArray == second
      ensures p.inArray == first ==> p in Members(first.queue[..]) && p !in Members(second.queue[..])
      ensures p.inArray == second ==> p in Members(second.queue[..]) && p !in Members(first.queue[..])
      ensures p.linkedIn < MAX_PRIO && nrRunning >= 1
    {
      if p in Members(first.queue[..]) {
        first.QueueOf(p);
      }
      if p in Members(second.queue[..]) {
        second.QueueOf(p);
      }
    }

    /** A dequeue leaves the other array alone. */
    static method Unlink(p: Task, here: PrioArray, there: PrioArray)
      requires here.Shape() && there.Shape()
      requires here != there && here.queue != there.queue && here.bitmap != there.bitmap
      requires here.Linked() && here.Indexed() && there.Linked() && there.Indexed()
      requires p in Members(here.queue[..]) && p !in Members(there.queue[..]) && p.Sane()
      modifies here, here.queue, here.bitmap, p`inArray
      ensures here.Linked() && there.Linked() && there.Indexed() && (here.Indexed() <==> old(here.Detachable(p)))
      ensures p.inArray == null && here.nrActive == old(here.nrActive) - 1 && there.nrActive == old(there.nrActive)
      ensures here.queue[..] == Removed(old(here.queue[..]), p.linkedIn, p)
      ensures Members(here.queue[..]) == old(Members(here.queue[..])) - {p}
      ensures there.queue[..] == old(there.queue[..])
    {
      hide Members, PrioArray.Indexed, Distinct;
      here.Dequeue(p);
      assert there.queue[..] == old(there.queue[..]);
    }

    /** Of all queues only the one that task `p` was in has changed, by losing it. */
    twostate predicate Unqueued(p: Task)
      reads first.queue, second.queue, p`inArray
    {
      && p.inArray == null
      && first.queue[..] == (if old(p.inArray) == first then Removed(old(first.queue[..]), old(p.linkedIn), p)
                             else old(first.queue[..]))
      && second.queue[..] == (if old(p.inArray) == second then Removed(old(second.queue[..]), old(p.linkedIn), p)
                              else old(second.queue[..]))
    }

    /** Task `p`, and no other, has left; its number is free again exactly when it is 0, 1 or 2 modulo 32. */
    twostate predicate Gone(p: Task)
      reads `processes, first.queue, second.queue, p`inArray, pids
    {
      && Unqueued(p)
      && processes == Without(old(processes), p)
      && pids.used == (if p.pid % 32 < 3 then old(pids.used) - {p.pid} else old(pids.used))
      && pids.nextPid == old(pids.nextPid)
    }

    /** Nobody else has a leaving task's number. */
    lemma LeaverPid(p: Task)
      requires PidsOk() && p in processes
      ensures 1 <= p.pid < PID_NUM && forall t :: t in Without(processes, p) ==> t.pid != p.pid
    {
    }

    /** The task is taken out of the array that it knows. */
    method Detach(p: Task)
      requires Core() && p in processes
      modifies Arrays(), p`inArray
      ensures Apart() && Fit() && InClass() && PidsOk() && Keyed() == old(Keyed())
      ensures first.Linked() && second.Linked() && Unqueued(p) && (Indexed() <==> old(KeepsIndex(p)))
      ensures Members(first.queue[..]) + Members(second.queue[..]) ==
              old(Members(first.queue[..]) + Members(second.queue[..])) - {p}
      ensures first.nrActive + second.nrActive == old(first.nrActive + second.nrActive) - 1
    {
      hide Members, PrioArray.Indexed, PrioArray.Linked, PrioArray.Detachable, PidMap.Valid, Distinct, Removed,
           Elements;
      HomeOf(p);
      var here := p.inArray;
      var there := if here == first then second else first;
      Unlink(p, here, there);
    }

    /**
     * `delete_task`: out of its queue, the counters and the process list; nothing else moves.  The index of the array
     * stays right exactly when the task was not alone in a queue of another priority than its own.
     */
    method DeleteTask(p: Task)
      requires Sound() && p in processes
      modifies `processes, `nrProcess, `nrRunning, Arrays(), p`inArray
      ensures Settled() && (Indexed() <==> old(KeepsIndex(p))) && (old(Keyed()) ==> Keyed())
      ensures processes == Without(old(processes), p) && Unqueued(p)
      ensures 1 <= p.pid < PID_NUM && forall t :: t in processes ==> t.pid != p.pid
    {
      hide Members, PrioArray.Linked, PidMap.Valid, Distinct, Without, Removed, Elements,
           Scheduler.KeepsIndex, Scheduler.Unqueued, Scheduler.Apart, Scheduler.Indexed, Scheduler.Fit,
           Scheduler.InClass, Scheduler.PidsOk, Scheduler.Keyed;
      LeaverPid(p);
      Detach(p);
      Strike(p);
    }

    /** The task leaves the process list and the counters. */
    method Strike(p: Task)
      requires Apart() && Fit() && InClass() && PidsOk() && first.Linked() && second.Linked()
      requires Distinct(processes) && p in processes && idle !in processes
      requires Members(first.queue[..]) + Members(second.queue[..]) == Elements(processes) - {p}
      requires nrProcess == |processes| == nrRunning == first.nrActive + second.nrActive + 1
      modifies `processes, `nrProcess, `nrRunning
      ensures Settled() && processes == Without(old(processes), p)
      ensures Indexed() == old(Indexed()) && (old(Keyed()) ==> Keyed())
    {
      hide Members, PrioArray.Indexed, PrioArray.Linked, PidMap.Valid, Distinct, Without, Elements, Scheduler.Fits;
      WithoutDistinct(processes, p);
      nrRunning := nrRunning - 1;
      processes := Without(processes, p);
      nrProcess := nrProcess - 1;
    }

    /** `pid_free` for a number that no live task has. */
    method Release(pid: u32)
      requires Settled() && pid < PID_NUM && forall t :: t in processes ==> t.pid != pid
      modifies pids, pids.pidmap
      ensures Settled() && Indexed() == old(Indexed()) && Keyed() == old(Keyed()) && pids.nextPid == old(pids.nextPid)
      ensures pids.used == if pid % 32 < 3 then old(pids.used) - {pid} else old(pids.used)
    {
      hide Members, PrioArray.Indexed, PidMap.Valid, Task.Sane, Task.Key, Distinct;
      var err := pids.Free(pid);
    }

    /** A task goes for good: out of the lists, and its number freed as far as `pid_free` does that. */
    method Reap(p: Task)
      requires Sound() && p in processes
      modifies `processes, `nrProcess, `nrRunning, Arrays(), p`inArray, pids, pids.pidmap
      ensures Settled() && (Indexed() <==> old(KeepsIndex(p))) && (old(Keyed()) ==> Keyed()) && Gone(p)
    {
      hide Members, PrioArray.Indexed, PrioArray.Linked, PidMap.Valid, Task.Sane, Task.Key, Distinct, Without,
           Removed, Elements, Scheduler.Lists, Scheduler.Indexed;
      DeleteTask(p);
      Release(p.pid);
    }

    /** `find_in_processes`. */
    method FindInProcesses(pid: u32) returns (p: Task?)
      requires idle.pid == IDLE_PID
      ensures pid == IDLE_PID ==> p == idle
      ensures pid != IDLE_PID && p != null ==> p in processes && p.pid == pid
      ensures pid != IDLE_PID && p == null ==> forall t :: t in processes ==> t.pid != pid
    {
      if pid == IDLE_PID {
        return idle;
      }
      for i := 0 to |processes|
        invariant forall k :: 0 <= k < i ==> processes[k].pid != pid
      {
        if processes[i].pid == pid {
          return processes[i];
        }
      }
      return null;
    }

    /** The checks of `pc_kill`, and the task it finds if they pass. */
    method KillTarget(pid: u32) returns (err: u32, p: Task?)
      requires Sound()
      ensures err == if pid >= PID_NUM || pid == IDLE_PID || pid == INIT_PID || pid == current.pid || pid !in pids.used
                     then 1 else 0
      ensures p == null <==> err == 1 || forall t :: t in processes ==> t.pid != pid
      ensures p != null ==> p.pid == pid && p in processes && p != current
      ensures Sound()
    {
      hide Members, PrioArray.Indexed, PrioArray.Linked, PidMap.Valid, Distinct, Scheduler.Fit, Scheduler.InClass;
      if pid >= PID_NUM || pid == IDLE_PID || pid == INIT_PID || pid == current.pid {
        return 1, null;
      }
      var free := pids.Check(pid);
      if free {
        return 1, null;
      }
      p := FindInProcesses(pid);
      return 0, p;
    }

    /**
     * `pc_kill`: refuses (1) numbers out of range, idle, init, the current task and numbers not in use.  Otherwise it
     * removes the task of that number; a number still marked as used that belongs to no task removes none.  Indexes
     * stay right exactly when the task could be taken out safely.
     */
    method Kill(pid: u32) returns (err: u32, ghost victim: Task?)
      requires Sound()
      modifies `processes, `nrProcess, `nrRunning, Arrays(), Elements(processes)`inArray, pids, pids.pidmap
      ensures Settled() && current in Tasks() && (old(Keyed()) ==> Keyed())
      ensures err == if pid >= PID_NUM || pid == IDLE_PID || pid == INIT_PID || pid == current.pid
                        || pid !in old(pids.used)
                     then 1 else 0
      ensures victim == null <==> err == 1 || forall t :: t in old(processes) ==> t.pid != pid
      ensures victim != null ==> victim.pid == pid && victim in old(processes) && Gone(victim)
      ensures var v := victim; Indexed() <==> v == null || old(KeepsIndex(v))
      ensures victim == null ==>
        processes == old(processes) && pids.used == old(pids.used) && pids.nextPid == old(pids.nextPid)
        && first.queue[..] == old(first.queue[..]) && second.queue[..] == old(second.queue[..])
    {
      hide Members, PrioArray.Indexed, PrioArray.Linked, PidMap.Valid, Task.Sane, Task.Key, Distinct, Removed,
           Without, Scheduler.Fit, Scheduler.Keyed;
      var p: Task?;
      err, p := KillTarget(pid);
      if p != null {
        Reap(p);
      }
      victim := p;
    }

    /** The choice in `find_next_task`. */
    method ChooseAny() returns (next: Task)
      requires Core()
      modifies `active, `expired
      ensures Core() && next == PickAny() && next in Tasks() && Keyed() == old(Keyed())
      ensures if old(active.nrActive) == 0 then active == old(expired) && expired == old(active)
              else active == old(active) && expired == old(expired)
    {
      hide PrioArray.Linked, Members, Distinct, PidMap.Valid, Task.Key, Task.Sane;
      if active.nrActive == 0 {
        active, expired := expired, active;
      }
      PickAnyIsTask();
      if active.highestPrio < MAX_PRIO {
        next := active.queue[active.highestPrio][0];
      } else {
        next := idle;
      }
    }

    /** The accounts of a task that starts: its waiting time joins its sleep average and gives its priority. */
    static twostate predicate Begun(next: Task, now: u32)
      reads next
    {
      && old(next.sleepAvg) <= MAX_SLEEP_AVG
      && next.timestamp == now && next.sleepAvg == AfterSleep(old(next.sleepAvg), Sub32(now, old(next.timestamp)))
      && next.prio == old(PrioAt(next, now))
    }

    /** The accounts of the task that `find_next_task` picks. */
    method Begin(next: Task, now: u32)
      requires Core() && next in Tasks()
      modifies next`sleepAvg, next`prio, next`timestamp
      ensures Core() && Begun(next, now)
      ensures old(Keyed()) ==> (Keyed() <==> next == idle || old(KeepsKey(next, now)))
    {
      hide Scheduler.PidsOk, PrioArray.Indexed, PrioArray.Linked, Members, Distinct, DynamicPrio;
      RecalcTaskPrio(next, now);
      next.timestamp := now;
    }

    /** `find_next_task`; its clock variable is never set, so `now` is any number. */
    method FindNextTask(now: u32) returns (next: Task)
      requires Core()
      modifies `active, `expired, Tasks()`sleepAvg, Tasks()`prio, Tasks()`timestamp
      ensures Core() && next == PickAny() && next in Tasks() && Begun(next, now)
      ensures if old(active.nrActive) == 0 then active == old(expired) && expired == old(active)
              else active == old(active) && expired == old(expired)
      ensures old(Keyed()) ==> (Keyed() <==> next == idle || old(KeepsKey(next, now)))
      ensures forall t :: t in old(processes) && t != next ==>
        t.prio == old(t.prio) && t.sleepAvg == old(t.sleepAvg) && t.timestamp == old(t.timestamp)
    {
      hide Scheduler.PidsOk, PrioArray.Indexed, PrioArray.Linked, Members, Distinct, DynamicPrio, AfterSleep;
      next := ChooseAny();
      Begin(next, now);
    }

    lemma PickAnyIsTask()
      requires Lists() && Apart() && Indexed()
      ensures PickAny() in Tasks()
    {
      if active.highestPrio < MAX_PRIO {
        assert PickAny() in active.queue[active.highestPrio];
      }
    }

    /** The first half of `pc_exit`: the task is taken out and the next one chosen. */
    method Depart(p: Task, now: u32) returns (next: Task)
      requires Sound() && p in processes && KeepsIndex(p)
      modifies `active, `expired, `processes, `nrProcess, `nrRunning
      modifies Arrays(), p`inArray, Tasks()`sleepAvg, Tasks()`prio, Tasks()`timestamp
      ensures Core() && next in Tasks() && next == PickAny() && next in old(Tasks()) && Begun(next, now)
      ensures processes == Without(old(processes), p) && Unqueued(p)
      ensures 1 <= p.pid < PID_NUM && forall t :: t in processes ==> t.pid != p.pid
      ensures old(Keyed()) ==> (Keyed() <==> next == idle || old(KeepsKey(next, now)))
      ensures var a, e := old(active), old(expired);
        if a.nrActive == 0 then active == e && expired == a else active == a && expired == e
    {
      hide Members, PrioArray.Indexed, PrioArray.Linked, Task.Sane, Distinct, Removed, DynamicPrio, AfterSleep,
           Without, Sub32, Scheduler.Apart, Scheduler.Lists, Scheduler.Indexed, Scheduler.Fit, Scheduler.InClass,
           Scheduler.Keyed, Scheduler.PidsOk, Scheduler.KeepsIndex, Scheduler.PickAny, Scheduler.Unqueued;
      DeleteTask(p);
      next := FindNextTask(now);
    }

    /** All of `pc_exit` but the change of the current task. */
    method Vacate(p: Task, now: u32) returns (next: Task)
      requires Sound() && p in processes && KeepsIndex(p)
      modifies `active, `expired, `processes, `nrProcess, `nrRunning
      modifies Arrays(), p`inArray, Tasks()`sleepAvg, Tasks()`prio, Tasks()`timestamp, pids, pids.pidmap
      ensures Core() && next in Tasks() && next == PickAny() && next in old(Tasks()) && Begun(next, now) && Gone(p)
      ensures old(Keyed()) ==> (Keyed() <==> next == idle || old(KeepsKey(next, now)))
      ensures var a, e := old(active), old(expired);
        if a.nrActive == 0 then active == e && expired == a else active == a && expired == e
    {
      hide Members, PrioArray.Indexed, PrioArray.Linked, PidMap.Valid, Task.Sane, Distinct, Removed, DynamicPrio,
           AfterSleep, Sub32, Scheduler.Lists, Without, Scheduler.Indexed, Scheduler.Fit, Scheduler.PidsOk,
           Scheduler.InClass, Scheduler.Keyed;
      next := Depart(p, now);
      Release(p.pid);
    }

    /**
     * `pc_exit`: the current task leaves, its number is freed as far as `pid_free` does that, and another runs.  The
     * code reads the indexes right after it took the task out of its queue, so the task must not be alone in a queue
     * of another priority than its own.
     */
    method Exit(now: u32)
      requires Sound() && current != idle && KeepsIndex(current)
      modifies `active, `expired, `current, `processes, `nrProcess, `nrRunning
      modifies Arrays(), current`inArray, Tasks()`sleepAvg, Tasks()`prio, Tasks()`timestamp, pids, pids.pidmap
      ensures Sound() && current == PickAny() && Gone(old(current)) && current in old(Tasks()) && Begun(current, now)
      ensures var p := current; old(Keyed()) ==> (Keyed() <==> p == idle || old(KeepsKey(p, now)))
      ensures var a, e := old(active), old(expired);
        if a.nrActive == 0 then active == e && expired == a else active == a && expired == e
    {
      hide Without, Removed, DynamicPrio, AfterSleep, Sub32, Scheduler.Core, Scheduler.Keyed, Scheduler.PickAny,
           Scheduler.PrioAt, Scheduler.KeepsIndex;
      var next := Vacate(current, now);
      Become(next);
    }

    // ---- arriving ------------------------------------------------------------------------------------------

    /**
     * `sched_fork`: priorities and policy from the request or the parent; parent and child share the parent's time
     * slice, of which the parent keeps at least 1.  Init gets a slice of its own.
     */
    method SchedFork(p: Task, setPrio: int, now: u32)
      requires p != current && -1 <= setPrio < MAX_PRIO && current.staticPrio <= MAX_PRIO
      modifies p, current`timeSlice
      ensures p.staticPrio == if setPrio == -1 then current.staticPrio else setPrio
      ensures p.prio == p.staticPrio && p.rtPriority == p.staticPrio && p.sleepAvg == current.sleepAvg
      ensures p.policy == PolicyOf(p.staticPrio) && p.inArray == null && p.timestamp == now
      ensures p.pid == INIT_PID ==>
        && p.timeSlice == BasicTimeslice(p.staticPrio, p.rtPriority, p.prio)
        && current.timeSlice == Max(old(current.timeSlice), 1)
      ensures p.pid != INIT_PID ==>
        && p.timeSlice == Add32(old(current.timeSlice), 1) / 2
        && current.timeSlice == Max(old(current.timeSlice) / 2, 1)
    {
      if setPrio == -1 {
        p.staticPrio := current.staticPrio;
      } else {
        p.staticPrio := setPrio;
      }
      if p.staticPrio <= MAX_RT_PRIO {
        p.rtPriority := p.staticPrio;
        p.prio := p.rtPriority;
        p.sleepAvg := current.sleepAvg;
        if p.rtPriority > MAX_RT_PRIO / 2 && p.rtPriority <= MAX_RT_PRIO {
          p.policy := SchedRr;
        } else {
          p.policy := SchedFifo;
        }
      } else {
        p.prio := p.staticPrio;
        p.rtPriority := p.prio;
        p.sleepAvg := current.sleepAvg;
        p.policy := SchedNormal;
      }
      p.inArray := null;
      if p.pid == INIT_PID {
        p.timeSlice := BasicTimeslice(p.staticPrio, p.rtPriority, p.prio);
      } else {
        p.timeSlice := Add32(current.timeSlice, 1) / 2;
        current.timeSlice := current.timeSlice / 2;
      }
      if current.timeSlice == 0 {
        current.timeSlice := 1;
      }
      p.timestamp := now;
    }

    /** An enqueue leaves the other array alone. */
    static method Insert(p: Task, here: PrioArray, there: PrioArray)
      requires here.Shape() && there.Shape()
      requires here != there && here.queue != there.queue && here.bitmap != there.bitmap
      requires here.Linked() && here.Indexed() && there.Linked()
      requires p !in Members(here.queue[..]) && p !in Members(there.queue[..]) && p.Key() < MAX_PRIO
      modifies here, here.queue, here.bitmap, p`inArray, p`linkedIn
      ensures here.Linked() && here.Indexed() && there.Linked() && there.Indexed() == old(there.Indexed())
      ensures p.inArray == here && p.linkedIn == p.Key()
      ensures here.nrActive == old(here.nrActive) + 1 && there.nrActive == old(there.nrActive)
      ensures here.queue[..] == Added(old(here.queue[..]), p.Key(), p)
      ensures Members(here.queue[..]) == old(Members(here.queue[..])) + {p}
      ensures there.queue[..] == old(there.queue[..])
    {
      hide Members, PrioArray.Indexed, Distinct;
      here.Enqueue(p);
      assert there.queue[..] == old(there.queue[..]);
    }

    /** `activate_task` for a new task: into the queue of its priority in the active array. */
    method Attach(p: Task)
      requires Orderly() && p != idle && p !in processes && Fits(p)
      modifies Arrays(), p`inArray, p`linkedIn
      ensures Apart() && Fit() && InClass() && Indexed() && Keyed() == old(Keyed()) && current in Tasks()
      ensures first.Linked() && second.Linked() && p.inArray == active && p.linkedIn == p.Key()
      ensures Members(first.queue[..]) + Members(second.queue[..]) == Elements(processes) + {p}
      ensures first.nrActive + second.nrActive == old(first.nrActive + second.nrActive) + 1
      ensures active.queue[..] == Added(old(active.queue[..]), p.Key(), p)
      ensures expired.queue[..] == old(expired.queue[..])
    {
      hide Members, PrioArray.Indexed, PrioArray.Linked, Added, Distinct;
      Insert(p, active, expired);
    }

    /** A queued new task joins the process list and the counters. */
    method Enlist(p: Task)
      requires Apart() && Fit() && InClass() && Indexed() && current in Tasks() && first.Linked() && second.Linked()
      requires Distinct(processes) && p !in processes && idle !in processes && p != idle && Fits(p)
      requires p.linkedIn == p.Key() && (p.IsRt() || p.linkedIn > MAX_RT_PRIO)
      requires Members(first.queue[..]) + Members(second.queue[..]) == Elements(processes) + {p}
      requires nrProcess == |processes| == nrRunning == first.nrActive + second.nrActive - 1
      modifies `processes, `nrProcess, `nrRunning
      ensures Orderly() && (old(Keyed()) ==> Keyed()) && processes == old(processes) + [p]
    {
      hide Members, PrioArray.Indexed, PrioArray.Linked, Distinct, Elements, Scheduler.Fits;
      AppendElements(processes, p);
      processes := processes + [p];
      nrProcess := nrProcess + 1;
      nrRunning := nrRunning + 1;
    }

    /** A new task enters the process list and the queue of its priority in the active array. */
    method Admit(p: Task)
      requires Orderly()
      requires p != idle && p !in processes && Fits(p)
      modifies `processes, `nrProcess, `nrRunning, Arrays(), p`inArray, p`linkedIn
      ensures Orderly() && (old(Keyed()) ==> Keyed())
      ensures processes == old(processes) + [p] && p.inArray == active
      ensures active.queue[..] == Added(old(active.queue[..]), p.Key(), p)
      ensures expired.queue[..] == old(expired.queue[..])
    {
      hide Members, PrioArray.Linked, Distinct, Added, Elements, Scheduler.Apart, Scheduler.Fit, Scheduler.InClass,
           Scheduler.Indexed, Scheduler.Keyed;
      Attach(p);
      Enlist(p);
    }

    /** The child's share of `wake_up_new_task`: the penalty is an integer quotient, 0, so it starts with no sleep. */
    method ChildPenalty(p: Task)
      requires Orderly() && p != idle && p !in processes
      requires p.sleepAvg <= MAX_SLEEP_AVG && p.prio == p.staticPrio <= MAX_PRIO && p.rtPriority == p.staticPrio
      modifies p`sleepAvg, p`prio
      ensures Orderly() && Keyed() == old(Keyed()) && Fits(p) && current.sleepAvg == old(current.sleepAvg)
      ensures p.sleepAvg == 0 && p.prio == DynamicPrio(p.staticPrio, p.staticPrio, 0)
    {
      hide Members, PrioArray.Indexed, PrioArray.Linked, Distinct;
      p.sleepAvg := Min(CHILD_PENALTY / 100 * p.sleepAvg, MAX_SLEEP_AVG);
      if !p.IsRt() {
        p.prio := DynamicPrio(p.staticPrio, p.rtPriority, p.sleepAvg);
      }
    }

    /** The parent's share: its penalty is the integer quotient 1. */
    method ParentPenalty()
      requires Orderly()
      modifies current`sleepAvg
      ensures Orderly() && Keyed() == old(Keyed()) && current.sleepAvg == old(current.sleepAvg)
    {
      hide Members, PrioArray.Indexed, PrioArray.Linked, Distinct;
      current.sleepAvg := Min(PARENT_PENALTY / 100 * current.sleepAvg, MAX_SLEEP_AVG);
    }

    /** `wake_up_new_task`. */
    method WakeUpNewTask(p: Task)
      requires Orderly()
      requires p != idle && p !in processes && p.sleepAvg <= MAX_SLEEP_AVG
      requires p.staticPrio <= MAX_PRIO && p.prio == p.staticPrio && p.rtPriority == p.staticPrio
      modifies `processes, `nrProcess, `nrRunning, Arrays(), p`inArray, p`linkedIn, p`sleepAvg, p`prio
      modifies current`sleepAvg
      ensures Orderly() && (old(Keyed()) ==> Keyed())
      ensures processes == old(processes) + [p] && p.inArray == active
      ensures p.sleepAvg == 0 && p.prio == DynamicPrio(p.staticPrio, p.staticPrio, 0)
      ensures active.queue[..] == Added(old(active.queue[..]), p.prio, p)
      ensures expired.queue[..] == old(expired.queue[..])
      ensures current.sleepAvg == old(current.sleepAvg)
    {
      hide Added, DynamicPrio, Scheduler.Orderly, Scheduler.Keyed;
      ChildPenalty(p);
      Admit(p);
      ParentPenalty();
    }

    /** `pid_alloc`, seen from the scheduler. */
    method TakePid() returns (pid: u32)
      requires Sound()
      modifies pids, pids.pidmap
      ensures Orderly() && Keyed() == old(Keyed()) && pids.Valid()
      ensures old(pids.nextPid) !in old(pids.used) ==> pid == old(pids.nextPid)
      ensures pid == NO_PID <==> forall p: u32 :: 1 <= p < PID_NUM ==> p in old(pids.used)
      ensures pid == NO_PID ==> pids.used == old(pids.used)
      ensures pid != NO_PID ==> 1 <= pid < PID_NUM && pid !in old(pids.used) && pids.used == old(pids.used) + {pid}
    {
      hide Members, PrioArray.Indexed, PrioArray.Linked, Distinct, PidMap.Valid;
      pid := pids.Alloc();
    }

    /** The new task's structure and its scheduling fields. */
    method Spawn(pid: u32, setPrio: int, now: u32) returns (t: Task)
      requires Orderly() && -1 <= setPrio < MAX_PRIO
      modifies current`timeSlice
      ensures Orderly() && Keyed() == old(Keyed()) && fresh(t) && t.pid == pid
      ensures t.staticPrio == (if setPrio == -1 then current.staticPrio else setPrio) && t.staticPrio <= MAX_PRIO
      ensures t.prio == t.staticPrio && t.rtPriority == t.staticPrio
      ensures t.sleepAvg == current.sleepAvg == old(current.sleepAvg) <= MAX_SLEEP_AVG
      ensures t.policy == PolicyOf(t.staticPrio) && t.timestamp == now
      ensures t.pid == INIT_PID ==>
        && t.timeSlice == BasicTimeslice(t.staticPrio, t.rtPriority, t.prio)
        && current.timeSlice == Max(old(current.timeSlice), 1)
      ensures t.pid != INIT_PID ==>
        && t.timeSlice == Add32(old(current.timeSlice), 1) / 2
        && current.timeSlice == Max(old(current.timeSlice) / 2, 1)
    {
      hide Members, PrioArray.Indexed, PrioArray.Linked, Distinct, PolicyOf, BasicTimeslice;
      t := new Task(pid);
      SchedFork(t, setPrio, now);
    }

    /** The first half of `do_fork`: a number, a task structure, its scheduling fields. */
    method NewTask(setPrio: int, now: u32) returns (t: Task)
      requires Sound() && -1 <= setPrio < MAX_PRIO
      modifies current`timeSlice, pids, pids.pidmap
      ensures Orderly() && Keyed() == old(Keyed()) && pids.Valid() && fresh(t) && t !in processes && t != idle
      ensures old(pids.nextPid) !in old(pids.used) ==> t.pid == old(pids.nextPid)
      ensures t.pid == NO_PID <==> forall p: u32 :: 1 <= p < PID_NUM ==> p in old(pids.used)
      ensures t.pid == NO_PID ==> pids.used == old(pids.used)
      ensures t.pid != NO_PID ==>
        1 <= t.pid < PID_NUM && t.pid !in old(pids.used) && pids.used == old(pids.used) + {t.pid}
      ensures t.staticPrio == (if setPrio == -1 then current.staticPrio else setPrio) && t.staticPrio <= MAX_PRIO
      ensures t.prio == t.staticPrio && t.rtPriority == t.staticPrio
      ensures t.sleepAvg == current.sleepAvg == old(current.sleepAvg) <= MAX_SLEEP_AVG
      ensures t.policy == PolicyOf(t.staticPrio) && t.timestamp == now
      ensures t.pid == INIT_PID ==>
        && t.timeSlice == BasicTimeslice(t.staticPrio, t.rtPriority, t.prio)
        && current.timeSlice == Max(old(current.timeSlice), 1)
      ensures t.pid != INIT_PID ==>
        && t.timeSlice == Add32(old(current.timeSlice), 1) / 2
        && current.timeSlice == Max(old(current.timeSlice) / 2, 1)
    {
      hide PolicyOf, BasicTimeslice, PidMap.Valid, Max, Scheduler.Sound, Scheduler.Orderly, Scheduler.Keyed;
      var newPid := TakePid();
      t := Spawn(newPid, setPrio, now);
    }

    /** `do_fork` past its checks. */
    method Born(setPrio: int, now: u32) returns (t: Task)
      requires Sound() && -1 <= setPrio < MAX_PRIO
      modifies `processes, `nrProcess, `nrRunning, Arrays(), current`timeSlice, current`sleepAvg, pids, pids.pidmap
      ensures fresh(t) && processes == old(processes) + [t] && Orderly() && (old(Keyed()) ==> Keyed())
      ensures PidsOk() <==> t.pid != NO_PID
      ensures old(pids.nextPid) !in old(pids.used) ==> t.pid == old(pids.nextPid)
      ensures t.pid == NO_PID <==> forall p: u32 :: 1 <= p < PID_NUM ==> p in old(pids.used)
      ensures t.pid != NO_PID ==> 1 <= t.pid < PID_NUM && t.pid !in old(pids.used)
      ensures pids.used == if t.pid == NO_PID then old(pids.used) else old(pids.used) + {t.pid}
      ensures t.staticPrio == t.rtPriority == if setPrio == -1 then old(current.staticPrio) else setPrio
      ensures t.policy == PolicyOf(t.staticPrio) && t.timestamp == now && t.inArray == active
      ensures t.prio == DynamicPrio(t.staticPrio, t.staticPrio, 0) && t.sleepAvg == 0
      ensures current.sleepAvg == old(current.sleepAvg)
      ensures active.queue[..] == Added(old(active.queue[..]), t.prio, t) && expired.queue[..] == old(expired.queue[..])
      ensures t.pid == INIT_PID ==>
        && t.timeSlice == BasicTimeslice(t.staticPrio, t.staticPrio, t.staticPrio)
        && current.timeSlice == Max(old(current.timeSlice), 1)
      ensures t.pid != INIT_PID ==>
        && t.timeSlice == Add32(old(current.timeSlice), 1) / 2
        && current.timeSlice == Max(old(current.timeSlice) / 2, 1)
    {
      hide Added, PolicyOf, DynamicPrio, BasicTimeslice, PidMap.Valid, Scheduler.Numbered, Scheduler.Keyed,
           Scheduler.InClass, Scheduler.Lists, Scheduler.Indexed, Scheduler.Fit, Max, Members, PrioArray.Linked,
           PrioArray.Indexed, Elements, Distinct;
      t := NewTask(setPrio, now);
      WakeUpNewTask(t);
      NumberedAppend(old(processes), old(pids.used), t, pids.used);
    }

    /**
     * `do_fork`.  Its test for a failed number allocation compares an unsigned number with 0 and never fires: the new
     * task is queued all the same, so process numbers stay good exactly when there was a free one.
     */
    method Fork(setPrio: int, now: u32) returns (pid: u32, ghost child: Task?)
      requires Sound()
      modifies `processes, `nrProcess, `nrRunning, Arrays(), current`timeSlice, current`sleepAvg, pids, pids.pidmap
      ensures child == null <==> !(0 <= setPrio < MAX_PRIO) && setPrio != -1
      ensures child == null ==>
        && pid == 0 && Sound() && Keyed() == old(Keyed()) && processes == old(processes) && pids.used == old(pids.used)
        && pids.nextPid == old(pids.nextPid) && current.timeSlice == old(current.timeSlice)
        && first.queue[..] == old(first.queue[..]) && second.queue[..] == old(second.queue[..])
      ensures child != null ==>
        && fresh(child) && child.pid == pid && processes == old(processes) + [child]
        && Orderly() && (old(Keyed()) ==> Keyed())
        && (PidsOk() <==> pid != NO_PID)
        && (old(pids.nextPid) !in old(pids.used) ==> pid == old(pids.nextPid))
        && (pid == NO_PID <==> forall p: u32 :: 1 <= p < PID_NUM ==> p in old(pids.used))
        && (pid != NO_PID ==> 1 <= pid < PID_NUM && pid !in old(pids.used))
        && pids.used == (if pid == NO_PID then old(pids.used) else old(pids.used) + {pid})
      ensures child != null ==>
        && child.staticPrio == child.rtPriority == (if setPrio == -1 then old(current.staticPrio) else setPrio)
        && child.policy == PolicyOf(child.staticPrio)
        && child.prio == DynamicPrio(child.staticPrio, child.staticPrio, 0) && child.sleepAvg == 0
        && child.timestamp == now && child.inArray == active && current.sleepAvg == old(current.sleepAvg)
        && active.queue[..] == Added(old(active.queue[..]), child.prio, child)
        && expired.queue[..] == old(expired.queue[..])
      ensures child != null && pid == INIT_PID ==>
        && child.timeSlice == BasicTimeslice(child.staticPrio, child.staticPrio, child.staticPrio)
        && current.timeSlice == Max(old(current.timeSlice), 1)
      ensures child != null && pid != INIT_PID ==>
        && child.timeSlice == Add32(old(current.timeSlice), 1) / 2
        && current.timeSlice == Max(old(current.timeSlice) / 2, 1)
    {
      hide Added, PolicyOf, DynamicPrio, BasicTimeslice, Max, Scheduler.Sound, Scheduler.PidsOk, Scheduler.Orderly,
           Scheduler.Keyed;
      if !(0 <= setPrio < MAX_PRIO) && setPrio != -1 {
        return 0, null;
      }
      var t := Born(setPrio, now);
      return t.pid, t;
    }

    // ---- the clock -----------------------------------------------------------------------------------------

    /** What the tick at time `now` decides. */
    function VerdictOf(now: u32): Verdict
      reads `current, `active, `expired, active, current
    {
      var p := current;
      if p == idle || p.inArray == expired || active.highestPrio < p.Key() then Yield
      else if !p.IsRt() then (if p.timeSlice == 1 then Expire else Stay)
      else if p.policy != SchedRr || p.timeSlice != 1 then Stay
      else if Sub32(now, BasicTimeslice(p.staticPrio, p.rtPriority, p.prio)) > STARVATION_LIMIT then Expire
      else Requeue
    }

    /**
     * The processor is taken away at once if the running task is idle or expired already, or if a task is queued in
     * front of its priority.
     */
    lemma YieldIff(now: u32)
      requires Sound()
      ensures VerdictOf(now) == Yield <==>
        || current == idle || current.inArray == expired
        || exists t :: t in processes && t.inArray == active &&
             t.linkedIn < if current.IsRt() then current.rtPriority else current.prio
    {
      hide Members, PrioArray.Linked, Distinct, PidMap.Valid;
      if current != idle && current.inArray != expired && active.highestPrio < current.Key() {
        QueuedIsLive(active, active.highestPrio, active.queue[active.highestPrio][0]);
      }
      forall t | t in processes && t.inArray == active
        ensures active.highestPrio <= t.linkedIn
      {
        HomeOf(t);
        active.QueueOf(t);
      }
    }

    /**
     * A round-robin task that has used up its slice goes to the end of its queue as long as the clock itself is not far
     * behind the new slice, and not before it either; from then on it always goes to the expired array.
     */
    lemma RoundRobinVerdict(now: u32)
      requires current.IsRt() && current.policy == SchedRr && current.timeSlice == 1 && VerdictOf(now) != Yield
      ensures var slice := BasicTimeslice(current.staticPrio, current.rtPriority, current.prio);
        && (VerdictOf(now) == Requeue <==> slice <= now <= slice + 5555)
        && (VerdictOf(now) == Expire <==> now < slice || slice + 5555 < now)
    {
      hide BasicTimeslice;
    }

    /** A task moves to the other array, with a new slice and, if it is a normal one, a new priority. */
    static method Transfer(p: Task, here: PrioArray, there: PrioArray)
      requires here.Shape() && there.Shape()
      requires here != there && here.queue != there.queue && here.bitmap != there.bitmap
      requires here.Linked() && here.Indexed() && there.Linked() && there.Indexed()
      requires p in Members(here.queue[..]) && p !in Members(there.queue[..]) && p.Sane()
      requires p.sleepAvg <= MAX_SLEEP_AVG && p.staticPrio <= MAX_PRIO
      modifies here, here.queue, here.bitmap, there, there.queue, there.bitmap
      modifies p`inArray, p`linkedIn, p`prio, p`timeSlice
      ensures here.Linked() && there.Linked() && there.Indexed() && (here.Indexed() <==> old(here.Detachable(p)))
      ensures here.nrActive == old(here.nrActive) - 1 && there.nrActive == old(there.nrActive) + 1
      ensures p.inArray == there && p.linkedIn == p.Key() && p.Sane()
      ensures p.prio == if p.IsRt() then old(p.prio) else DynamicPrio(p.staticPrio, p.rtPriority, p.sleepAvg)
      ensures p.timeSlice == BasicTimeslice(p.staticPrio, p.rtPriority, p.prio)
      ensures here.queue[..] == Removed(old(here.queue[..]), old(p.linkedIn), p)
      ensures there.queue[..] == Added(old(there.queue[..]), p.Key(), p)
      ensures Members(here.queue[..]) == old(Members(here.queue[..])) - {p}
      ensures Members(there.queue[..]) == old(Members(there.queue[..])) + {p}
    {
      hide Members, PrioArray.Indexed, PrioArray.Linked, PrioArray.Detachable, Added, Removed, BasicTimeslice;
      Unlink(p, here, there);
      if !p.IsRt() {
        p.prio := DynamicPrio(p.staticPrio, p.rtPriority, p.sleepAvg);
      }
      p.timeSlice := BasicTimeslice(p.staticPrio, p.rtPriority, p.prio);
      Insert(p, there, here);
    }

    /** The current task's slice is used up: it goes to the expired array. */
    method ExpireCurrent()
      requires Sound() && current != idle && current.inArray == active
      modifies Arrays(), current`inArray, current`linkedIn, current`prio, current`timeSlice
      ensures Settled() && current in Tasks() && current.inArray == expired && (old(Keyed()) ==> Keyed())
      ensures Indexed() <==> old(KeepsIndex(current))
      ensures old(KeepsIndex(current)) ==> Sound()
      ensures current.linkedIn == if current.IsRt() then old(current.linkedIn) else current.prio
      ensures current.prio == if current.IsRt() then old(current.prio)
                              else DynamicPrio(current.staticPrio, current.rtPriority, current.sleepAvg)
      ensures current.timeSlice == BasicTimeslice(current.staticPrio, current.rtPriority, current.prio)
      ensures active.queue[..] == Removed(old(active.queue[..]), old(current.linkedIn), current)
      ensures expired.queue[..] == Added(old(expired.queue[..]), current.linkedIn, current)
    {
      hide Members, PrioArray.Indexed, PrioArray.Linked, Added, Removed, BasicTimeslice, Distinct,
           PidMap.Valid, DynamicPrio;
      HomeOf(current);
      Transfer(current, active, expired);
    }

    /** A requeue under the same key leaves the other array alone. */
    static method Rotate(p: Task, here: PrioArray, there: PrioArray)
      requires here.Shape() && there.Shape()
      requires here != there && here.queue != there.queue
      requires here.Linked() && here.Indexed() && there.Linked() && there.Indexed()
      requires p in Members(here.queue[..]) && p !in Members(there.queue[..]) && p.linkedIn == p.Key() < MAX_PRIO
      modifies here.queue, p`linkedIn
      ensures here.Linked() && here.Indexed() && there.Linked() && there.Indexed()
      ensures p.linkedIn == p.Key() && there.queue[..] == old(there.queue[..])
      ensures here.queue[..] == Added(Removed(old(here.queue[..]), p.Key(), p), p.Key(), p)
      ensures Members(here.queue[..]) == old(Members(here.queue[..]))
    {
      hide Members, PrioArray.Indexed, Distinct;
      here.Requeue(p);
      assert there.queue[..] == old(there.queue[..]);
    }

    /** The current task goes to the end of its queue. */
    method RequeueCurrent()
      requires Sound() && current != idle && current.inArray == active && current.IsRt()
      modifies active.queue, current`linkedIn
      ensures Sound() && current.linkedIn == old(current.linkedIn) && (old(Keyed()) ==> Keyed())
      ensures var k := current.linkedIn;
        active.queue[..] == Added(Removed(old(active.queue[..]), k, current), k, current)
      ensures expired.queue[..] == old(expired.queue[..])
    {
      hide Members, PrioArray.Indexed, PrioArray.Linked, Added, Removed, BasicTimeslice, Distinct,
           PidMap.Valid, DynamicPrio;
      HomeOf(current);
      Rotate(current, active, expired);
    }

    /** What a tick does to a running task `p` that is to stay, the active array `a` and the expired array `e`. */
    static twostate predicate Stayed(p: Task, a: PrioArray, e: PrioArray)
      reads a`highestPrio, a.queue, e.queue, p`linkedIn, p`inArray, p`timeSlice
    {
      && a.queue[..] == old(a.queue[..]) && e.queue[..] == old(e.queue[..]) && p.linkedIn == old(p.linkedIn)
      && a.highestPrio == old(a.highestPrio) && p.inArray == old(p.inArray)
      && p.timeSlice == (if old(p.IsRt() && p.policy != SchedRr) then old(p.timeSlice) else Sub32(old(p.timeSlice), 1))
    }

    /** And to one that is not. */
    static twostate predicate Moved(verdict: Verdict, p: Task, a: PrioArray, e: PrioArray)
      requires verdict != Stay
      reads a.queue, e.queue, p`linkedIn, p`inArray, p`timeSlice
    {
      match verdict
      case Yield =>
        && a.queue[..] == old(a.queue[..]) && e.queue[..] == old(e.queue[..]) && p.linkedIn == old(p.linkedIn)
        && p.timeSlice == old(p.timeSlice) && p.inArray == old(p.inArray)
      case Requeue =>
        && a.queue[..] == Added(Removed(old(a.queue[..]), p.linkedIn, p), p.linkedIn, p)
        && e.queue[..] == old(e.queue[..]) && p.linkedIn == old(p.linkedIn) && p.inArray == old(p.inArray)
        && p.timeSlice == BasicTimeslice(old(p.staticPrio), old(p.rtPriority), old(p.prio))
      case Expire =>
        && a.queue[..] == Removed(old(a.queue[..]), old(p.linkedIn), p)
        && e.queue[..] == Added(old(e.queue[..]), p.linkedIn, p)
        && p.inArray == e && old(p.sleepAvg) <= MAX_SLEEP_AVG
        && p.linkedIn == (if old(p.IsRt()) then old(p.linkedIn)
                          else DynamicPrio(old(p.staticPrio), old(p.rtPriority), old(p.sleepAvg)))
        && p.timeSlice == BasicTimeslice(old(p.staticPrio), old(p.rtPriority),
                                         if old(p.IsRt()) then old(p.prio) else p.linkedIn)
    }

    /** What a tick does, by its verdict. */
    static twostate predicate Ticked(verdict: Verdict, p: Task, a: PrioArray, e: PrioArray)
      reads a`highestPrio, a.queue, e.queue, p`linkedIn, p`inArray, p`timeSlice
    {
      if verdict == Stay then Stayed(p, a, e) else Moved(verdict, p, a, e)
    }

    /** The beginning of `scheduler_tick`: the time is noted, then come the checks for an immediate reschedule. */
    method MustYield(now: u32) returns (yes: bool)
      requires Sound()
      modifies `timestampLastTick, `history
      ensures Sound() && Keyed() == old(Keyed()) && timestampLastTick == now && history == old(history) + [current]
      ensures yes <==> VerdictOf(now) == Yield
      ensures !yes ==> current != idle && current.inArray == active
    {
      hide PrioArray.Indexed, PrioArray.Linked, Distinct, PidMap.Valid;
      var p := current;
      timestampLastTick := now;
      history := history + [p];
      if p.pid == IDLE_PID {
        return true;
      }
      if p.inArray == expired {
        return true;
      }
      HomeOf(p);
      if p.IsRt() {
        if active.highestPrio < p.rtPriority {
          return true;
        }
      } else {
        if active.highestPrio < p.prio {
          return true;
        }
      }
      return false;
    }

    /** The current task's slice is written; nothing depends on it. */
    method SetSlice(slice: u32)
      requires Sound()
      modifies current`timeSlice
      ensures Sound() && Keyed() == old(Keyed()) && current.timeSlice == slice
    {
      hide Members, PrioArray.Indexed, PrioArray.Linked, PidMap.Valid, Distinct;
      current.timeSlice := slice;
    }

    /** A real-time task can always be taken out safely. */
    lemma RtKeepsIndex(p: Task)
      requires Sound() && p in processes && p.IsRt()
      ensures KeepsIndex(p)
    {
    }

    lemma CurrentIsLive()
      requires Sound() && current != idle
      ensures current in processes && current.sleepAvg <= MAX_SLEEP_AVG && active.queue in Arrays()
    {
    }

    /** A real-time task with a new slice: to the expired array if the clock is late, else to the end of its queue. */
    method MoveOn(now: u32) returns (verdict: Verdict)
      requires Sound() && current != idle && current.inArray == active && current.IsRt()
      requires current.timeSlice == BasicTimeslice(current.staticPrio, current.rtPriority, current.prio)
      modifies Arrays(), current`inArray, current`linkedIn, current`prio, current`timeSlice
      ensures Sound() && (old(Keyed()) ==> Keyed()) && Ticked(verdict, current, active, expired)
      ensures verdict == if Sub32(now, old(current.timeSlice)) > STARVATION_LIMIT then Expire else Requeue
    {
      hide Added, Removed, BasicTimeslice, DynamicPrio, Scheduler.Sound, Scheduler.Keyed, Scheduler.KeepsIndex,
           Scheduler.Settled;
      CurrentIsLive();
      RtKeepsIndex(current);
      if Sub32(now, current.timeSlice) > STARVATION_LIMIT {
        ExpireCurrent();
        return Expire;
      } else {
        RequeueCurrent();
        return Requeue;
      }
    }

    /** The rest of it for a real-time task: only round-robin tasks use up their slices. */
    method CountRt(now: u32) returns (verdict: Verdict)
      requires Sound() && current != idle && current.inArray == active && VerdictOf(now) != Yield && current.IsRt()
      modifies Arrays(), current`inArray, current`linkedIn, current`prio, current`timeSlice
      ensures Sound() && (old(Keyed()) ==> Keyed())
      ensures verdict == old(VerdictOf(now)) && Ticked(verdict, current, active, expired)
      ensures verdict == Stay ==> current.prio == old(current.prio)
    {
      hide Added, Removed, BasicTimeslice, DynamicPrio, Scheduler.Sound, Scheduler.Keyed, Scheduler.KeepsIndex,
           Scheduler.Settled;
      if current.policy == SchedRr {
        SetSlice(Sub32(current.timeSlice, 1));
        if current.timeSlice == 0 {
          SetSlice(BasicTimeslice(current.staticPrio, current.rtPriority, current.prio));
          verdict := MoveOn(now);
          return;
        }
      }
      return Stay;
    }

    /** The rest of it for a normal task: a used-up slice means the expired array. */
    method CountNormal(now: u32) returns (verdict: Verdict)
      requires Sound() && current != idle && current.inArray == active && VerdictOf(now) != Yield && !current.IsRt()
      requires VerdictOf(now) == Expire ==> KeepsIndex(current)
      modifies Arrays(), current`inArray, current`linkedIn, current`prio, current`timeSlice
      ensures Sound() && (old(Keyed()) ==> Keyed())
      ensures verdict == old(VerdictOf(now)) && Ticked(verdict, current, active, expired)
      ensures verdict == Stay ==> current.prio == old(current.prio)
    {
      hide Added, Removed, BasicTimeslice, DynamicPrio, Scheduler.Sound, Scheduler.Keyed, Scheduler.Settled;
      CurrentIsLive();
      SetSlice(Sub32(current.timeSlice, 1));
      if current.timeSlice == 0 {
        ExpireCurrent();
        return Expire;
      }
      return Stay;
    }

    /** `scheduler_tick` up to its calls of `schedule`. */
    method CountTick(now: u32) returns (verdict: Verdict)
      requires Sound() && (VerdictOf(now) == Expire ==> KeepsIndex(current))
      modifies `timestampLastTick, `history
      modifies Arrays(), current`inArray, current`linkedIn, current`prio, current`timeSlice
      ensures Sound() && (old(Keyed()) ==> Keyed()) && timestampLastTick == now && history == old(history) + [current]
      ensures verdict == old(VerdictOf(now)) && Ticked(verdict, current, active, expired)
      ensures verdict == Stay ==> current.prio == old(current.prio)
    {
      hide Added, Removed, BasicTimeslice, DynamicPrio, Scheduler.Sound, Scheduler.Keyed, Scheduler.Settled,
           Scheduler.KeepsIndex;
      var yes := MustYield(now);
      if yes {
        return Yield;
      }
      if current.IsRt() {
        verdict := CountRt(now);
      } else {
        verdict := CountNormal(now);
      }
    }

    /**
     * `scheduler_tick`: the verdict decides how the running task and its queue change; unless it is to stay, `schedule`
     * follows, exchanging the arrays if the active one is now empty.  A task whose slice is used up must not be alone
     * in a queue of another priority than its own, for `schedule` reads the indexes.
     */
    method Tick(now: u32, later: u32) returns (verdict: Verdict)
      requires Sound() && (VerdictOf(now) == Expire ==> KeepsIndex(current))
      modifies `timestampLastTick, `history, `active, `expired, `current, Arrays()
      modifies current`inArray, current`linkedIn, current`timeSlice, Tasks()`sleepAvg, Tasks()`prio, Tasks()`timestamp
      ensures Sound() && timestampLastTick == now && history == old(history) + [old(current)]
      ensures verdict == old(VerdictOf(now)) && Ticked(verdict, old(current), old(active), old(expired))
      ensures verdict == Stay ==>
        && (old(Keyed()) ==> Keyed())
        && active == old(active) && expired == old(expired) && current == old(current)
        && current.prio == old(current.prio) && current.sleepAvg == old(current.sleepAvg)
        && current.timestamp == old(current.timestamp)
      ensures current in old(Tasks())
      ensures var p := current; verdict != Stay ==> p == Pick() && old(p.sleepAvg) <= MAX_SLEEP_AVG
      ensures var p := current; verdict != Stay ==> p.prio == old(PrioAt(p, later))
      ensures var p := current;
        verdict != Stay && old(Keyed()) ==>
          (Keyed() <==> p == idle || p.IsRt() || old(PrioAt(p, later)) == p.linkedIn)
      ensures verdict != Stay ==> Stamped(old(current), current, later)
      ensures forall t :: t in old(processes) && t != old(current) && t != current ==>
        t.prio == old(t.prio) && t.sleepAvg == old(t.sleepAvg) && t.timestamp == old(t.timestamp)
      ensures var a, e := old(active), old(expired);
        verdict != Stay ==> if a.nrActive == 0 then active == e && expired == a else active == a && expired == e
    {
      hide Added, Removed, BasicTimeslice, DynamicPrio, AfterRun, AfterSleep, Sub32, Scheduler.VerdictOf,
           Scheduler.Keyed, Scheduler.Pick, Scheduler.KeepsIndex, Scheduler.Moved, Scheduler.Stayed, Scheduler.Core,
           Scheduler.Ticked, Scheduler.PrioAt;
      verdict := CountTick(now);
      if verdict != Stay {
        Schedule(later);
      }
    }
  }
}
