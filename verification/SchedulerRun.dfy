/** Whole runs of the scheduler: any sequence of forks, ticks, exits and kills (kernel/pc/pc.c). */
module SchedulerRun {
  import opened Bits
  import opened Common
  import opened PrioArrayModule
  import opened Pid
  import opened SchedulerModule

  datatype Event =
    | Fork(setPrio: int, now: u32)
    | Tick(now: u32, later: u32)
    | Exit(now: u32)
    | Kill(pid: u32)

  /** No process number is left. */
  ghost predicate NumbersGone(s: Scheduler)
    reads s.pids
  {
    forall p: u32 :: 1 <= p < PID_NUM ==> p in s.pids.used
  }

  /** The task that `pc_kill` would remove. */
  ghost predicate Victim(s: Scheduler, pid: u32, t: Task)
    reads s`processes, s`current, s.pids
  {
    && t in s.processes && t.pid == pid
    && 1 < pid < PID_NUM && pid != s.current.pid && pid in s.pids.used
  }

  /**
   * The events after which the machine is not in order any more: a fork without a free process number, and the removal
   * from its queue of a task that is alone in a queue of another priority than its own.
   */
  ghost predicate Harmful(s: Scheduler, e: Event)
    reads s, s.active, s.current, s.Arrays(), s.Tasks(), s.pids
  {
    match e
    case Fork(setPrio, now) => (0 <= setPrio < MAX_PRIO || setPrio == -1) && NumbersGone(s)
    case Tick(now, later) => s.VerdictOf(now) == Expire && !s.KeepsIndex(s.current)
    case Exit(now) => s.current != s.idle && !s.KeepsIndex(s.current)
    case Kill(pid) => exists t :: t in s.processes && Victim(s, pid, t) && !s.KeepsIndex(t)
  }

  /** Whether the event is harmful, found out beforehand. */
  method Foresee(s: Scheduler, e: Event) returns (harmful: bool)
    requires s.Sound()
    ensures s.Sound() && (harmful <==> Harmful(s, e))
  {
    hide Scheduler.Core, Scheduler.VerdictOf, Scheduler.KeepsIndex;
    match e
    case Fork(setPrio, now) =>
      var gone := NoNumberLeft(s);
      return (0 <= setPrio < MAX_PRIO || setPrio == -1) && gone;
    case Tick(now, later) =>
      return s.VerdictOf(now) == Expire && !s.KeepsIndex(s.current);
    case Exit(now) =>
      return s.current != s.idle && !s.KeepsIndex(s.current);
    case Kill(pid) =>
      var err, t := s.KillTarget(pid);
      OneVictim(s, pid);
      return t != null && !s.KeepsIndex(t);
  }

  /** Process numbers tell tasks apart. */
  lemma OneVictim(s: Scheduler, pid: u32)
    requires s.Sound()
    ensures forall t, u :: t in s.processes && u in s.processes && t.pid == pid && u.pid == pid ==> t == u
  {
  }

  method NoNumberLeft(s: Scheduler) returns (gone: bool)
    requires s.Sound()
    ensures s.Sound() && (gone <==> NumbersGone(s))
  {
    hide Scheduler.Lists, Scheduler.Indexed, Scheduler.Fit, Scheduler.InClass, Bit;
    for i := 1 to PID_NUM
      invariant forall p: u32 :: 1 <= p < i ==> p in s.pids.used
    {
      if !Bit(s.pids.pidmap[i / 8], i % 8) {
        return false;
      }
    }
    return true;
  }

  /** What a run looks like between two events; `clock` is the time of the last tick. */
  datatype View = View(processes: seq<Task>, current: Task, used: set<u32>, history: seq<Task>, clock: u32)

  ghost function ViewOf(s: Scheduler): View
    reads s`processes, s`current, s`history, s`timestampLastTick, s.pids`used
  {
    View(s.processes, s.current, s.pids.used, s.history, s.timestampLastTick)
  }

  /** A new task, with a free number, comes last in the process list. */
  ghost predicate Adds(v: View, w: View, t: Task) {
    && t !in v.processes && 1 <= t.pid < PID_NUM && t.pid !in v.used
    && w == v.(processes := v.processes + [t], used := v.used + {t.pid})
  }

  /** A task, and no other, is gone; its number is free again exactly when it is 0, 1 or 2 modulo 32. */
  ghost predicate Removes(v: View, w: View, t: Task) {
    && w.processes == Without(v.processes, t)
    && w.used == (if t.pid % 32 < 3 then v.used - {t.pid} else v.used)
    && w.history == v.history && w.clock == v.clock
  }

  /** What an event does. */
  ghost predicate Effect(idle: Task, e: Event, v: View, w: View) {
    match e
    case Fork(setPrio, now) =>
      if 0 <= setPrio < MAX_PRIO || setPrio == -1 then
        w.processes != [] && Adds(v, w, w.processes[|w.processes| - 1])
      else w == v
    case Tick(now, later) =>
      && w == v.(current := w.current, history := v.history + [v.current], clock := now)
      && (w.current in v.processes || w.current == idle)
    case Exit(now) =>
      if v.current == idle then w == v
      else Removes(v, w, v.current) && (w.current in w.processes || w.current == idle)
    case Kill(pid) =>
      if pid <= INIT_PID || pid >= PID_NUM || pid == v.current.pid || pid !in v.used then w == v
      else
        || (w == v && forall t :: t in v.processes ==> t.pid != pid)
        || exists t :: t in v.processes && t.pid == pid && Removes(v, w, t) && w.current == v.current
  }

  /** One event that is not harmful; idle does not exit. */
  method Step(s: Scheduler, e: Event)
    requires s.Sound() && s.Sliced() && !Harmful(s, e)
    modifies s, s.Arrays(), s.Tasks(), s.pids, s.pids.pidmap
    ensures s.Sound() && s.Sliced() && Effect(s.idle, e, old(ViewOf(s)), ViewOf(s))
    ensures fresh(s.Tasks() - old(s.Tasks()))
  {
    hide Scheduler.Core, Scheduler.Keyed, Scheduler.KeepsIndex, Scheduler.VerdictOf, Without, Effect;
    match e
    case Fork(setPrio, now) =>
      StepFork(s, setPrio, now);
    case Tick(now, later) =>
      StepTick(s, now, later);
    case Exit(now) =>
      StepExit(s, now);
    case Kill(pid) =>
      StepKill(s, pid);
  }

  method StepFork(s: Scheduler, setPrio: int, now: u32)
    requires s.Sound() && s.Sliced() && !Harmful(s, Fork(setPrio, now))
    modifies s`processes, s`nrProcess, s`nrRunning, s.Arrays(), s.current`timeSlice, s.current`sleepAvg
    modifies s.pids, s.pids.pidmap
    ensures s.Sound() && s.Sliced() && Effect(s.idle, Fork(setPrio, now), old(ViewOf(s)), ViewOf(s))
    ensures forall t :: t in s.processes ==> t in old(s.processes) || fresh(t)
  {
    hide Scheduler.Core, Scheduler.Orderly, Scheduler.PidsOk, Scheduler.Keyed, Added, DynamicPrio, BasicTimeslice;
    var pid, child := s.Fork(setPrio, now);
    s.SoundParts();
  }

  method StepTick(s: Scheduler, now: u32, later: u32)
    requires s.Sound() && s.Sliced() && !Harmful(s, Tick(now, later))
    modifies s`timestampLastTick, s`history, s`active, s`expired, s`current, s.Arrays()
    modifies s.current`inArray, s.current`linkedIn, s.current`timeSlice
    modifies s.Tasks()`sleepAvg, s.Tasks()`prio, s.Tasks()`timestamp
    ensures s.Sound() && s.Sliced() && Effect(s.idle, Tick(now, later), old(ViewOf(s)), ViewOf(s))
    ensures s.processes == old(s.processes)
  {
    hide Scheduler.Core, Scheduler.Keyed, Scheduler.KeepsIndex, Added, Removed, BasicTimeslice, DynamicPrio;
    var verdict := s.Tick(now, later);
  }

  method StepExit(s: Scheduler, now: u32)
    requires s.Sound() && s.Sliced() && !Harmful(s, Exit(now))
    modifies s`active, s`expired, s`current, s`processes, s`nrProcess, s`nrRunning, s.Arrays(), s.current`inArray
    modifies s.Tasks()`sleepAvg, s.Tasks()`prio, s.Tasks()`timestamp, s.pids, s.pids.pidmap
    ensures s.Sound() && s.Sliced() && Effect(s.idle, Exit(now), old(ViewOf(s)), ViewOf(s))
    ensures forall t :: t in s.processes ==> t in old(s.processes)
  {
    hide Scheduler.Core, Scheduler.Keyed, Scheduler.KeepsIndex, Removed, DynamicPrio, Without, AfterRun, AfterSleep,
         Sub32, Max, Bonus, Scheduler.PrioAt, Scheduler.Begun, Scheduler.PickAny;
    if s.current != s.idle {
      s.Exit(now);
    }
  }

  method StepKill(s: Scheduler, pid: u32)
    requires s.Sound() && s.Sliced() && !Harmful(s, Kill(pid))
    modifies s`processes, s`nrProcess, s`nrRunning, s.Arrays(), Elements(s.processes)`inArray, s.pids, s.pids.pidmap
    ensures s.Sound() && s.Sliced() && Effect(s.idle, Kill(pid), old(ViewOf(s)), ViewOf(s))
    ensures forall t :: t in s.processes ==> t in old(s.processes)
  {
    hide Scheduler.Settled, Scheduler.Indexed, Scheduler.Keyed, Scheduler.KeepsIndex, Without;
    var err, victim := s.Kill(pid);
  }

  /**
   * Any run from the empty machine on: after every event each live task is in exactly one queue of the array that it
   * knows, counters, bitmaps and minima agree with the queues, process numbers tell tasks apart, and every task has
   * some of its slice left.  `trace` shows the machine between the events, each of which had its effect.  The run is
   * cut off only before a harmful event.
   */
  method Run(events: seq<Event>) returns (s: Scheduler, n: nat, ghost trace: seq<View>)
    ensures fresh(s) && s.Sound() && s.Sliced() && n <= |events|
    ensures |trace| == n + 1 && trace[0] == View([], s.idle, {IDLE_PID}, [], 0) && trace[n] == ViewOf(s)
    ensures forall i :: 0 <= i < n ==> Effect(s.idle, events[i], trace[i], trace[i + 1])
    ensures n < |events| ==> Harmful(s, events[n])
  {
    hide Scheduler.Sound, Scheduler.Keyed, Harmful, Effect;
    s := new Scheduler();
    n, trace := 0, [ViewOf(s)];
    while n < |events|
      invariant fresh(s) && n <= |events| && s.Sound() && s.Sliced()
      invariant fresh(s.Arrays()) && fresh(s.Tasks()) && fresh(s.pids) && fresh(s.pids.pidmap)
      invariant |trace| == n + 1 && trace[0] == View([], s.idle, {IDLE_PID}, [], 0) && trace[n] == ViewOf(s)
      invariant forall i :: 0 <= i < n ==> Effect(s.idle, events[i], trace[i], trace[i + 1])
    {
      var harmful := Foresee(s, events[n]);
      if harmful {
        return;
      }
      Step(s, events[n]);
      n, trace := n + 1, trace + [ViewOf(s)];
    }
  }
}
