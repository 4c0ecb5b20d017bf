/**
 * How an epoch can fail to end: a task that was picked although its priority has fallen behind that of its queue is
 * preempted and picked again at every tick (kernel/pc/pc.c: scheduler_tick, schedule).
 */
module Starvation {
  import opened Common
  import opened PrioArrayModule
  import opened SchedulerModule
  import opened Pid
  import opened Epoch
  import opened SchedulerRun

  /** The running normal task heads the best queue, but its priority is behind that of the queue. */
  ghost predicate Stuck(s: Scheduler)
    reads s`active, s`expired, s`processes, s`nrProcess, s`nrRunning, s`current, s.current, s.Arrays(), s.Tasks()
    reads s.pids, s.pids.pidmap, Members(s.first.queue[..]), Members(s.second.queue[..])
  {
    var p := s.current;
    s.Sound() && p == s.Pick() != s.idle && !p.IsRt() && p.prio > p.linkedIn
  }

  function Times(t: Task, n: nat): seq<Task> {
    seq(n, _ => t)
  }

  /** After `elapsed` ticks of waiting the task's priority is still behind queue `k`, and the average is not capped. */
  predicate StaysBehind(p: Task, k: nat, elapsed: u32)
    reads p`staticPrio, p`rtPriority, p`sleepAvg
  {
    p.sleepAvg + elapsed <= MAX_SLEEP_AVG && DynamicPrio(p.staticPrio, p.rtPriority, p.sleepAvg + elapsed) > k
  }

  /** The task that is picked from these queues. */
  function Front(qs: Queues, idle: Task): Task {
    if 0 < Best(qs) < |qs| then Head(qs, Best(qs)) else idle
  }

  /** The queues determine whether an array counts tasks, and the pick. */
  lemma QueuesTell(s: Scheduler, a: PrioArray)
    requires s.Sound() && (a == s.first || a == s.second)
    ensures var qs := a.queue[..];
      && |qs| == MAX_PRIO && a.highestPrio == Best(qs) && (a.nrActive > 0 <==> Best(qs) < |qs|)
      && (a == s.active ==> s.Pick() == Front(qs, s.idle))
  {
    hide Members, PrioArray.Linked, PidMap.Valid, Distinct, Scheduler.PidsOk, Scheduler.Fit, Scheduler.InClass;
    CountedIsQueued(a);
  }

  lemma Sides(s: Scheduler)
    requires s.Sound()
    ensures (s.active == s.first && s.expired == s.second) || (s.active == s.second && s.expired == s.first)
    ensures s.first != s.second && s.first.queue.Length == s.second.queue.Length == MAX_PRIO
  {
  }

  /** A stuck task is preempted at once, whatever the time. */
  lemma StuckYields(s: Scheduler, now: u32)
    requires Stuck(s)
    ensures s.VerdictOf(now) == Yield && s.current in s.processes
    ensures (s.active == s.first || s.active == s.second) && s.active.nrActive > 0
    ensures s.current.sleepAvg <= MAX_SLEEP_AVG
  {
    hide Members, PrioArray.Linked, PidMap.Valid, Distinct;
    s.PickIsTask();
    CountedIsQueued(s.active);
  }

  /**
   * A tick of a stuck machine changes nothing but times: the same task has the processor, with the same slice.  The
   * machine is stuck again exactly when the task's priority is still behind.
   */
  method StuckTick(s: Scheduler, now: u32, later: u32)
    requires Stuck(s)
    modifies s`timestampLastTick, s`history, s`active, s`expired, s`current, s.Arrays()
    modifies s.current`inArray, s.current`linkedIn, s.current`timeSlice
    modifies s.Tasks()`sleepAvg, s.Tasks()`prio, s.Tasks()`timestamp
    ensures s.Sound() && s.current == old(s.current) && s.history == old(s.history) + [s.current]
    ensures s.active == old(s.active) && s.expired == old(s.expired)
    ensures s.active.queue[..] == old(s.active.queue[..]) && s.expired.queue[..] == old(s.expired.queue[..])
    ensures s.current.timeSlice == old(s.current.timeSlice)
    ensures s.current.linkedIn == old(s.current.linkedIn) && s.current.timestamp == later
    ensures old(s.current.sleepAvg) <= MAX_SLEEP_AVG &&
      (Stuck(s) <==> old(Scheduler.PrioAt(s.current, later)) > s.current.linkedIn)
    ensures old(StaysBehind(s.current, s.current.linkedIn, Sub32(later, s.current.timestamp))) ==>
      Stuck(s) && s.current.sleepAvg == old(s.current.sleepAvg)
  {
    hide DynamicPrio, Added, Removed, Scheduler.Core, Scheduler.VerdictOf, Scheduler.Pick, Scheduler.KeepsIndex,
         Scheduler.Keyed;
    StuckYields(s, now);
    Sides(s);
    ghost var a := s.active;
    QueuesTell(s, a);
    var verdict := s.Tick(now, later);
    Sides(s);
    QueuesTell(s, a);
  }

  /** How long the task that was picked at time `since` has waited when reading `i` comes, if it is picked each time. */
  function Elapsed(clock: seq<Reading>, since: u32, i: nat): u32
    requires i < |clock|
  {
    Sub32(clock[i].later, if i == 0 then since else clock[i - 1].later)
  }

  /** Clock readings under which task `p`, picked at time `since` from queue `k`, stays behind. */
  ghost predicate KeepBehind(p: Task, k: nat, since: u32, clock: seq<Reading>)
    reads p`staticPrio, p`rtPriority, p`sleepAvg
  {
    forall i :: 0 <= i < |clock| ==> StaysBehind(p, k, Elapsed(clock, since, i))
  }

  /** So it goes on: the processor stays with that task, nothing leaves the queues, and no slice is used up. */
  method StuckRun(s: Scheduler, clock: seq<Reading>)
    requires Stuck(s) && KeepBehind(s.current, s.current.linkedIn, s.current.timestamp, clock)
    modifies s`timestampLastTick, s`history, s`active, s`expired, s`current, s.Arrays()
    modifies s.current`inArray, s.current`linkedIn, s.current`timeSlice
    modifies s.Tasks()`sleepAvg, s.Tasks()`prio, s.Tasks()`timestamp
    ensures Stuck(s) && s.current == old(s.current)
    ensures s.history == old(s.history) + Times(s.current, |clock|)
    ensures s.active == old(s.active) && s.expired == old(s.expired)
    ensures s.active.queue[..] == old(s.active.queue[..]) && s.expired.queue[..] == old(s.expired.queue[..])
    ensures s.current.timeSlice == old(s.current.timeSlice)
  {
    hide Stuck, DynamicPrio, StaysBehind, Scheduler.Sound, Scheduler.PrioAt;
    var p := s.current;
    for i := 0 to |clock|
      invariant Stuck(s) && s.current == p
      invariant s.history == old(s.history) + Times(p, i)
      invariant s.active == old(s.active) && s.expired == old(s.expired)
      invariant s.active.queue[..] == old(s.active.queue[..]) && s.expired.queue[..] == old(s.expired.queue[..])
      invariant p.timeSlice == old(p.timeSlice) && p.linkedIn == old(p.linkedIn) && p.sleepAvg == old(p.sleepAvg)
      invariant p.timestamp == if i == 0 then old(p.timestamp) else clock[i - 1].later
    {
      assert old(StaysBehind(p, p.linkedIn, Elapsed(clock, p.timestamp, i)));
      StuckTick(s, clock[i].now, clock[i].later);
    }
  }

  // ---- a machine that gets there -----------------------------------------------------------------------------

  /** Queues of which only number `k` may have tasks. */
  function Row(k: nat, q: seq<Task>): (qs: Queues)
    ensures |qs| == MAX_PRIO
  {
    seq(MAX_PRIO, j => if j == k then q else [])
  }

  lemma RowLaws(k: nat, q: seq<Task>, t: Task)
    requires k < MAX_PRIO
    ensures Added(Row(0, []), k, t) == Row(k, [t])
    ensures Added(Row(k, q), k, t) == Row(k, q + [t])
    ensures Removed(Row(k, q), k, t) == Row(k, Without(q, t))
    ensures Best(Row(k, q)) == if q == [] then MAX_PRIO else k
    ensures Row(k, q)[k] == q
  {
    assert Row(k, q)[k] == q && [] + [t] == [t];
  }

  /** The machine has these queues in its two arrays. */
  ghost predicate Shows(s: Scheduler, active: Queues, expired: Queues)
    reads s`active, s`expired, s`processes, s`nrProcess, s`nrRunning, s`current, s.Arrays(), s.Tasks()
    reads s.pids, s.pids.pidmap, Members(s.first.queue[..]), Members(s.second.queue[..])
    reads s.active.queue, s.expired.queue
  {
    s.Sound() && s.active.queue[..] == active && s.expired.queue[..] == expired
  }

  /** What the clock and the accounts change in a task. */
  datatype Account = Account(prio: u32, sleepAvg: u32, timeSlice: u32, timestamp: u32)

  function AccountOf(t: Task): Account
    reads t`prio, t`sleepAvg, t`timeSlice, t`timestamp
  {
    Account(t.prio, t.sleepAvg, t.timeSlice, t.timestamp)
  }

  lemma RunsOn(s: Scheduler, now: u32)
    requires s.Sound() && s.current in s.processes && !s.current.IsRt()
    requires s.current.inArray == s.active && s.current.prio <= s.active.highestPrio
    ensures s.VerdictOf(now) == if s.current.timeSlice == 1 then Expire else Stay
    ensures s.active != s.expired
  {
    hide Members, PrioArray.Linked, PrioArray.Indexed, PidMap.Valid, Distinct;
  }

  /** A tick at which the running task only uses up some of its slice. */
  method StayTick(s: Scheduler, now: u32)
    requires s.Sound() && s.current in s.processes && !s.current.IsRt() && s.current.timeSlice > 1
    requires s.current.inArray == s.active && s.current.prio <= s.active.highestPrio
    modifies s`timestampLastTick, s`history, s`active, s`expired, s`current, s.Arrays()
    modifies s.current`inArray, s.current`linkedIn, s.current`timeSlice
    modifies s.Tasks()`sleepAvg, s.Tasks()`prio, s.Tasks()`timestamp
    ensures s.Sound() && s.current == old(s.current) && s.active == old(s.active) && s.expired == old(s.expired)
    ensures s.current.inArray == s.active && s.active.highestPrio == old(s.active.highestPrio)
    ensures s.active.queue[..] == old(s.active.queue[..]) && s.expired.queue[..] == old(s.expired.queue[..])
    ensures AccountOf(s.current) == old(AccountOf(s.current)).(timeSlice := old(s.current.timeSlice) - 1)
    ensures forall t :: t in old(s.processes) && t != s.current ==> AccountOf(t) == old(AccountOf(t))
  {
    hide Scheduler.Core, Added, Removed, Scheduler.Keyed, Scheduler.KeepsIndex, Scheduler.VerdictOf;
    RunsOn(s, now);
    var verdict := s.Tick(now, now);
  }

  /** Such ticks, one time unit apart. */
  method Burn(s: Scheduler, since: u32, n: nat)
    requires s.Sound() && s.current in s.processes && !s.current.IsRt() && n < s.current.timeSlice
    requires s.current.inArray == s.active && s.current.prio <= s.active.highestPrio
    modifies s`timestampLastTick, s`history, s`active, s`expired, s`current, s.Arrays()
    modifies s.current`inArray, s.current`linkedIn, s.current`timeSlice
    modifies s.Tasks()`sleepAvg, s.Tasks()`prio, s.Tasks()`timestamp
    ensures s.Sound() && s.current == old(s.current) && s.active == old(s.active) && s.expired == old(s.expired)
    ensures s.active.queue[..] == old(s.active.queue[..]) && s.expired.queue[..] == old(s.expired.queue[..])
    ensures AccountOf(s.current) == old(AccountOf(s.current)).(timeSlice := old(s.current.timeSlice) - n)
    ensures forall t :: t in old(s.processes) && t != s.current ==> AccountOf(t) == old(AccountOf(t))
  {
    hide Scheduler.Sound;
    var p, a, e := s.current, s.active, s.expired;
    for i := 0 to n
      invariant s.Sound() && s.current == p && s.active == a && s.expired == e
      invariant p.inArray == a && p.prio <= a.highestPrio
      invariant a.queue[..] == old(s.active.queue[..]) && e.queue[..] == old(s.expired.queue[..])
      invariant AccountOf(p) == old(AccountOf(p)).(timeSlice := old(p.timeSlice) - i)
      invariant forall t :: t in s.processes && t != p ==> AccountOf(t) == old(AccountOf(t))
    {
      StayTick(s, Add32(since, i + 1));
    }
  }

  /** What the queues of a machine say about a task in them. */
  lemma Located(s: Scheduler, a: PrioArray, k: nat, t: Task)
    requires s.Sound() && (a == s.active || a == s.expired)
    requires k < MAX_PRIO && a.queue.Length == MAX_PRIO && t in a.queue[k]
    ensures t in s.processes && t.inArray == a && t.linkedIn == k && t != s.idle
  {
    hide Members, PrioArray.Linked, PrioArray.Indexed, PidMap.Valid, Distinct;
    s.QueuedIsLive(a, k, t);
  }

  /** The priorities and slices of a task with static priority 55. */
  lemma Of55()
    ensures DynamicPrio(55, 55, 0) == DynamicPrio(55, 55, 7) == 59
    ensures DynamicPrio(55, 55, 1112) == 58 && DynamicPrio(55, 55, 1083) == DynamicPrio(55, 55, 1084) == 59
    ensures AfterSleep(0, 1112) == 1112 && AfterRun(1112, 37) == 1075 && AfterSleep(1075, 8) == 1083
    ensures AfterSleep(0, 7) == 7
    ensures BasicTimeslice(55, 55, 55) == 45 && BasicTimeslice(55, 55, 58) == 30
  {
  }

  lemma NoMembers(qs: Queues)
    requires Members(qs) == {} && forall k :: 0 <= k < |qs| ==> Distinct(qs[k])
    ensures Total(qs) == 0
  {
    forall k | 0 <= k < |qs|
      ensures qs[k] == []
    {
      DistinctCardinality(qs[k]);
      assert forall t :: t in qs[k] ==> t in Members(qs);
      assert Elements(qs[k]) == {};
    }
    TotalZero(qs);
  }

  /** A new machine has no task queued. */
  lemma NothingQueued(s: Scheduler)
    requires s.Sound() && s.processes == []
    ensures Shows(s, Row(0, []), Row(0, []))
  {
    assert Elements(s.processes) == {};
    NoMembers(s.first.queue[..]);
    TotalZero(s.first.queue[..]);
    NoMembers(s.second.queue[..]);
    TotalZero(s.second.queue[..]);
  }

  /** The first task, with static priority 55. */
  method Started() returns (s: Scheduler, a: Task)
    ensures fresh(s) && fresh(s.Arrays()) && fresh(s.Tasks()) && fresh(s.pids) && fresh(s.pids.pidmap)
    ensures Shows(s, Row(59, [a]), Row(0, [])) && s.processes == [a] && s.current == s.idle
    ensures s.pids.used == {IDLE_PID, INIT_PID}
    ensures Is(a, Account(59, 0, 45, 0))
  {
    hide Scheduler.Core, PrioArray.Linked, BasicTimeslice, DynamicPrio, Row, Added, Scheduler.Sound, Scheduler.Orderly,
         Scheduler.PidsOk, Scheduler.Keyed;
    s := new Scheduler();
    NothingQueued(s);
    Of55();
    var pid, child := s.Fork(55, 0);
    s.SoundParts();
    a := s.processes[0];
    RowLaws(59, [], a);
  }

  /** The queues of the active array and of the expired one when the running task leaves the one for the other. */
  ghost function Before(verdict: Verdict, p: Task, active: Queues): Queues
    reads p`linkedIn
  {
    if verdict == Expire then Removed(active, p.linkedIn, p) else active
  }

  ghost function Behind(verdict: Verdict, p: Task, expired: Queues): Queues
    requires p.sleepAvg <= MAX_SLEEP_AVG
    reads p`staticPrio, p`rtPriority, p`sleepAvg
  {
    if verdict == Expire then Added(expired, DynamicPrio(p.staticPrio, p.rtPriority, p.sleepAvg), p) else expired
  }

  /** What it does to slices, averages, time stamps and priorities. */
  twostate predicate Paid(verdict: Verdict, p: Task, q: Task, now: u32)
    reads p, q
  {
    && old(p.sleepAvg) <= MAX_SLEEP_AVG && old(q.sleepAvg) <= MAX_SLEEP_AVG
    && Scheduler.Stamped(p, q, now) && q.prio == old(Scheduler.PrioAt(q, now))
    && (verdict == Yield ==> p.timeSlice == old(p.timeSlice))
    && (verdict == Expire ==>
          p.timeSlice == BasicTimeslice(p.staticPrio, p.rtPriority,
                                        DynamicPrio(p.staticPrio, p.rtPriority, old(p.sleepAvg))))
  }

  /** A tick that reschedules, seen on the queues. */
  method QueueTick(s: Scheduler, now: u32, ghost active: Queues, ghost expired: Queues) returns (verdict: Verdict)
    requires Shows(s, active, expired) && (s.VerdictOf(now) == Yield || s.VerdictOf(now) == Expire)
    requires s.VerdictOf(now) == Expire ==> !s.current.IsRt() && s.KeepsIndex(s.current)
    requires s.current.sleepAvg <= MAX_SLEEP_AVG
    modifies s`timestampLastTick, s`history, s`active, s`expired, s`current, s.Arrays()
    modifies s.current`inArray, s.current`linkedIn, s.current`timeSlice
    modifies s.Tasks()`sleepAvg, s.Tasks()`prio, s.Tasks()`timestamp
    ensures verdict == old(s.VerdictOf(now)) && s.current in old(s.Tasks())
    ensures
      var left := old(Before(s.VerdictOf(now), s.current, active));
      var other := old(Behind(s.VerdictOf(now), s.current, expired));
      if Best(left) < MAX_PRIO then Shows(s, left, other) && s.current == Front(left, s.idle)
      else Shows(s, other, left) && s.current == Front(other, s.idle)
    ensures Paid(verdict, old(s.current), s.current, now)
    ensures forall t :: t in old(s.processes) && t != old(s.current) && t != s.current ==>
      t.sleepAvg == old(t.sleepAvg) && t.timestamp == old(t.timestamp)
  {
    hide Scheduler.Core, Scheduler.VerdictOf, Scheduler.Pick, Scheduler.KeepsIndex, Scheduler.Keyed, DynamicPrio,
         AfterSleep, AfterRun, Added, Removed, BasicTimeslice, Scheduler.PrioAt, Scheduler.Stamped;
    Sides(s);
    ghost var a := s.active;
    verdict := s.Tick(now, now);
    Sides(s);
    QueuesTell(s, a);
    QueuesTell(s, s.active);
  }

  lemma IdleYields(s: Scheduler, now: u32)
    requires s.current == s.idle
    ensures s.VerdictOf(now) == Yield
  {
  }

  /** The task has static priority 55, and these are its accounts. */
  ghost predicate Is(t: Task, account: Account)
    reads t
  {
    t.staticPrio == t.rtPriority == 55 && AccountOf(t) == account
  }

  /** Picked at time 1112 it has slept enough to be given priority 58, but stays in queue 59. */
  method PickFirst(s: Scheduler, a: Task)
    requires Shows(s, Row(59, [a]), Row(0, [])) && s.processes == [a] && s.current == s.idle
    requires Is(a, Account(59, 0, 45, 0))
    modifies s`timestampLastTick, s`history, s`active, s`expired, s`current, s.Arrays()
    modifies s.current`inArray, s.current`linkedIn, s.current`timeSlice
    modifies s.Tasks()`sleepAvg, s.Tasks()`prio, s.Tasks()`timestamp
    ensures Shows(s, Row(59, [a]), Row(0, [])) && s.current == a && Is(a, Account(58, 1112, 45, 1112))
  {
    hide Scheduler.Core, Scheduler.Pick, Scheduler.KeepsIndex, DynamicPrio, AfterSleep, AfterRun, Row, Added, Removed,
         BasicTimeslice, Best, Scheduler.Sound, Scheduler.VerdictOf;
    Of55();
    RowLaws(59, [a], a);
    Located(s, s.active, 59, a);
    s.AveragesFit();
    IdleYields(s, 1112);
    var verdict := QueueTick(s, 1112, Row(59, [a]), Row(0, []));
  }

  /** Where a task of queue 59 is, if only that queue has active tasks. */
  lemma Ahead(s: Scheduler, q: seq<Task>, expired: Queues, t: Task)
    requires Shows(s, Row(59, q), expired) && t in q && t.prio <= 59
    ensures t in s.processes && t != s.idle && t.inArray == s.active && t.linkedIn == 59
    ensures t.prio <= s.active.highestPrio && t.sleepAvg <= MAX_SLEEP_AVG
    ensures s.KeepsIndex(t) <==> t.prio == 59 || |q| > 1
  {
    hide Scheduler.Core, Best, Scheduler.Sound, Row;
    Sides(s);
    RowLaws(59, q, t);
    Located(s, s.active, 59, t);
    QueuesTell(s, s.active);
    s.AveragesFit();
  }

  /** Its exit would be harmful then: it is alone in a queue of another priority than its own. */
  method AlteredKeyExample() returns (s: Scheduler)
    ensures fresh(s) && s.Sound() && s.current in s.processes
    ensures s.current.prio == 58 && s.current.linkedIn == 59 && Harmful(s, Exit(1112))
  {
    hide Scheduler.Core, Row, DynamicPrio, Scheduler.KeepsIndex;
    var a;
    s, a := Started();
    PickFirst(s, a);
    Ahead(s, [a], Row(0, []), a);
  }

  /** It forks another one at time 1142, with the rest of its slice shared. */
  method ShareSlice(s: Scheduler, a: Task) returns (b: Task)
    requires Shows(s, Row(59, [a]), Row(0, [])) && s.processes == [a] && s.current == a
    requires Is(a, Account(58, 1112, 15, 1112)) && s.pids.used == {IDLE_PID, INIT_PID}
    modifies s`processes, s`nrProcess, s`nrRunning, s.Arrays(), s.current`timeSlice, s.current`sleepAvg
    modifies s.pids, s.pids.pidmap
    ensures Shows(s, Row(59, [a, b]), Row(0, [])) && s.processes == [a, b] && a != b && fresh(b)
    ensures Is(a, Account(58, 1112, 7, 1112)) && Is(b, Account(59, 0, 8, 1142))
  {
    hide Scheduler.Core, DynamicPrio, Row, Added, Removed, BasicTimeslice, Best, AfterSleep, AfterRun, PolicyOf,
         Scheduler.Sound, Scheduler.PidsOk, Scheduler.Orderly, Scheduler.Keyed;
    Of55();
    assert 2 !in s.pids.used;
    var pid, child := s.Fork(55, 1142);
    s.SoundParts();
    b := s.processes[1];
    RowLaws(59, [a], b);
    assert [a] + [b] == [a, b];
  }

  lemma Pair(a: Task, b: Task)
    requires a != b
    ensures Without([a, b], a) == [b] && Without([b], b) == []
  {
    assert [a, b][1..] == [b];
  }

  /** It uses up its slice and expires into queue 58 at time 1149; the other one is picked. */
  method ExpireFirst(s: Scheduler, a: Task, b: Task)
    requires Shows(s, Row(59, [a, b]), Row(0, [])) && s.processes == [a, b] && a != b && s.current == a
    requires Is(a, Account(58, 1112, 1, 1112)) && Is(b, Account(59, 0, 8, 1142))
    modifies s`timestampLastTick, s`history, s`active, s`expired, s`current, s.Arrays()
    modifies s.current`inArray, s.current`linkedIn, s.current`timeSlice
    modifies s.Tasks()`sleepAvg, s.Tasks()`prio, s.Tasks()`timestamp
    ensures Shows(s, Row(59, [b]), Row(58, [a])) && s.current == b
    ensures Is(a, Account(a.prio, 1075, 30, 1149)) && Is(b, Account(59, 7, 8, 1149))
  {
    hide Scheduler.Core, Scheduler.Pick, Scheduler.KeepsIndex, DynamicPrio, AfterSleep, AfterRun, Row, Added, Removed,
         BasicTimeslice, Best, Scheduler.Sound, Scheduler.VerdictOf, Without, Scheduler.Apart, Scheduler.Keyed,
         Scheduler.Tasks, Members, Distinct;
    Of55();
    Ahead(s, [a, b], Row(0, []), a);
    RunsOn(s, 1149);
    RowLaws(59, [a, b], a);
    RowLaws(58, [], a);
    RowLaws(59, [b], b);
    Pair(a, b);
    var verdict := QueueTick(s, 1149, Row(59, [a, b]), Row(0, []));
  }

  /** The other one expires into queue 59 at time 1157, the arrays are exchanged, and the first one is picked. */
  method ExpireSecond(s: Scheduler, a: Task, b: Task)
    requires Shows(s, Row(59, [b]), Row(58, [a])) && a != b && s.current == b
    requires Is(a, Account(a.prio, 1075, 30, 1149)) && Is(b, Account(59, 7, 1, 1149))
    modifies s`timestampLastTick, s`history, s`active, s`expired, s`current, s.Arrays()
    modifies s.current`inArray, s.current`linkedIn, s.current`timeSlice
    modifies s.Tasks()`sleepAvg, s.Tasks()`prio, s.Tasks()`timestamp
    ensures Shows(s, Added(Row(58, [a]), 59, b), Row(59, [])) && s.current == a
    ensures Is(a, Account(59, 1083, 30, 1157))
  {
    hide Scheduler.Core, Scheduler.Pick, Scheduler.KeepsIndex, DynamicPrio, AfterSleep, AfterRun, Row, Added, Removed,
         BasicTimeslice, Best, Scheduler.Sound, Scheduler.VerdictOf, Without, Scheduler.Apart, Scheduler.Keyed,
         Scheduler.Tasks, Members, Distinct;
    Of55();
    Ahead(s, [b], Row(58, [a]), b);
    RunsOn(s, 1157);
    RowLaws(59, [b], b);
    RowLaws(59, [], b);
    AddedBehind(a, b);
    Pair(a, b);
    var verdict := QueueTick(s, 1157, Row(59, [b]), Row(58, [a]));
  }

  lemma AddedBehind(a: Task, b: Task)
    ensures var qs := Added(Row(58, [a]), 59, b); |qs| == MAX_PRIO && Best(qs) == 58 && qs[58] == [a]
  {
    var qs := Added(Row(58, [a]), 59, b);
    assert qs[58] == [a];
  }

  /** The first one stays in queue 58 with priority 59. */
  lemma FallenBehind(s: Scheduler, a: Task, b: Task)
    requires Shows(s, Added(Row(58, [a]), 59, b), Row(59, [])) && s.current == a && Is(a, Account(59, 1083, 30, 1157))
    ensures Stuck(s) && a.linkedIn == 58 && s.active.highestPrio == 58 && StaysBehind(a, 58, 1)
    ensures s.active.queue[..] == Added(Row(58, [a]), 59, b)
  {
    hide Scheduler.Core, Best, DynamicPrio, Row, Added;
    Of55();
    Sides(s);
    AddedBehind(a, b);
    QueuesTell(s, s.active);
    Located(s, s.active, 58, a);
  }

  /** From the first pick to the second fork. */
  method FirstRuns(s: Scheduler, a: Task) returns (b: Task)
    requires Shows(s, Row(59, [a]), Row(0, [])) && s.processes == [a] && s.current == s.idle
    requires Is(a, Account(59, 0, 45, 0)) && s.pids.used == {IDLE_PID, INIT_PID}
    modifies s, s.Arrays(), s.Tasks(), s.pids, s.pids.pidmap
    ensures Shows(s, Row(59, [a, b]), Row(0, [])) && s.processes == [a, b] && a != b && fresh(b) && s.current == a
    ensures Is(a, Account(58, 1112, 7, 1112)) && Is(b, Account(59, 0, 8, 1142))
  {
    hide Scheduler.Core, Scheduler.Pick, DynamicPrio, Row, Added, Best, Scheduler.Sound, Scheduler.KeepsIndex;
    PickFirst(s, a);
    Ahead(s, [a], Row(0, []), a);
    Burn(s, 1112, 30);
    b := ShareSlice(s, a);
  }

  /** From there to the exchange of the arrays. */
  method BothExpire(s: Scheduler, a: Task, b: Task)
    requires Shows(s, Row(59, [a, b]), Row(0, [])) && s.processes == [a, b] && a != b && s.current == a
    requires Is(a, Account(58, 1112, 7, 1112)) && Is(b, Account(59, 0, 8, 1142))
    modifies s`timestampLastTick, s`history, s`active, s`expired, s`current, s.Arrays(), s.Tasks()
    ensures Shows(s, Added(Row(58, [a]), 59, b), Row(59, [])) && s.current == a
    ensures Is(a, Account(59, 1083, 30, 1157))
  {
    hide Scheduler.Core, Scheduler.Pick, DynamicPrio, Row, Added, Best, Scheduler.Sound, Scheduler.KeepsIndex;
    Ahead(s, [a, b], Row(0, []), a);
    Burn(s, 1142, 6);
    ExpireFirst(s, a, b);
    Ahead(s, [b], Row(58, [a]), b);
    Burn(s, 1149, 7);
    ExpireSecond(s, a, b);
  }

  /** Two tasks, forked with static priority 55, and a machine that is stuck at time 1157. */
  method StuckExample() returns (s: Scheduler, a: Task, b: Task)
    ensures fresh(s) && fresh(s.Arrays()) && fresh(s.Tasks()) && fresh(a) && Stuck(s)
    ensures s.processes == [a, b] && s.current == a != b && s.active.queue[..] == Added(Row(58, [a]), 59, b)
    ensures a.linkedIn == 58 && Is(a, Account(59, 1083, 30, 1157)) && StaysBehind(a, 58, 1)
  {
    hide Scheduler.Core, Shows, DynamicPrio, Row, Added, Best, Scheduler.Sound, Stuck;
    s, a := Started();
    b := FirstRuns(s, a);
    BothExpire(s, a, b);
    FallenBehind(s, a, b);
  }

  /** Clock readings one time unit apart. */
  function UnitSteps(since: u32, n: nat): seq<Reading> {
    seq(n, i requires 0 <= i < n => Reading(Add32(since, i + 1), Add32(since, i + 1)))
  }

  lemma UnitStepsApart(p: Task, k: nat, since: u32, n: nat)
    requires StaysBehind(p, k, 1)
    ensures KeepBehind(p, k, since, UnitSteps(since, n)) && |UnitSteps(since, n)| == n
  {
    hide StaysBehind;
    assert forall i :: 0 <= i < n ==> Elapsed(UnitSteps(since, n), since, i) == 1;
  }

  /** However long the clock runs on, the other task never has the processor again. */
  method StarvesExample(n: nat) returns (s: Scheduler, a: Task, b: Task, ghost before: seq<Task>)
    ensures fresh(s) && Stuck(s) && s.processes == [a, b] && a != b
    ensures s.active.queue[..] == Added(Row(58, [a]), 59, b)
    ensures s.history == before + Times(a, n) && a.timeSlice == 30
  {
    hide Stuck, DynamicPrio, Row, Added, StaysBehind, KeepBehind, UnitSteps;
    s, a, b := StuckExample();
    before := s.history;
    UnitStepsApart(a, 58, 1157, n);
    StuckRun(s, UnitSteps(1157, n));
  }
}
