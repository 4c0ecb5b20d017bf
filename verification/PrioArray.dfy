/**
 * One priority array of the scheduler (kernel/pc/pc.c: set_bit_map, clear_bit_map, update_highest_pro, enqueue_task,
 * enqueue_task_head, requeue_task, dequeue_task; include/zjunix/pc.h).
 */
module PrioArrayModule {
  import opened Common
  import opened Bits

  const MAX_PRIO := 64
  const MAX_RT_PRIO := 49
  const BITMAP_SIZE := (MAX_PRIO + 7) / 8

  datatype Policy = SchedNormal | SchedFifo | SchedRr

  /** `struct task_struct`, as far as scheduling goes; `inArray` is its `array` field,
   * and `linkedIn` the queue that its list node is linked into. */
  class Task {
    const pid: u32
    var staticPrio: u32
    var prio: u32
    var rtPriority: u32
    var sleepAvg: u32
    var policy: Policy
    var timeSlice: u32
    var timestamp: u32
    var inArray: PrioArray?
    var linkedIn: nat

    constructor (pid: u32)
      ensures this.pid == pid && inArray == null && sleepAvg == 0 && timeSlice == 0
    {
      this.pid := pid;
      policy := SchedNormal;
      staticPrio, prio, rtPriority, sleepAvg, timeSlice, timestamp := 0, 0, 0, 0, 0, 0;
      inArray := null;
      linkedIn := 0;
    }

    /** `is_rt_task`. */
    predicate IsRt()
      reads this`staticPrio
    {
      staticPrio <= MAX_RT_PRIO
    }

    /** The priority under which the task is queued. */
    function Key(): u32
      reads this`staticPrio, this`prio, this`rtPriority
    {
      if IsRt() then rtPriority else prio
    }

    /** Priorities in range; a real-time task's two priorities agree. */
    predicate Sane()
      reads this`staticPrio, this`prio, this`rtPriority
    {
      && prio < MAX_PRIO
      && (IsRt() ==> rtPriority == prio)
    }
  }

  // ---- rows of queues ----------------------------------------------------------------------------------------

  type Queues = seq<seq<Task>>

  function Total(qs: Queues): nat {
    if qs == [] then 0 else Total(qs[..|qs| - 1]) + |qs[|qs| - 1]|
  }

  ghost function Members(qs: Queues): set<Task> {
    set k, t | 0 <= k < |qs| && t in qs[k] :: t
  }

  lemma {:induction false} TotalUpdate(qs: Queues, k: nat, q: seq<Task>)
    requires k < |qs|
    ensures Total(qs[k := q]) == Total(qs) - |qs[k]| + |q|
  {
    var n := |qs| - 1;
    if k == n {
      assert qs[k := q][..n] == qs[..n];
    } else {
      TotalUpdate(qs[..n], k, q);
      assert qs[k := q][..n] == qs[..n][k := q];
    }
  }

  lemma {:induction false} TotalZero(qs: Queues)
    ensures Total(qs) == 0 <==> forall k :: 0 <= k < |qs| ==> qs[k] == []
  {
    if qs != [] {
      TotalZero(qs[..|qs| - 1]);
    }
  }

  /** The rows of queues after task `t` left queue `k`. */
  function Removed(qs: Queues, k: nat, t: Task): Queues {
    if k < |qs| then qs[k := Without(qs[k], t)] else qs
  }

  /** The rows of queues after task `t` arrived at the tail of queue `k`. */
  function Added(qs: Queues, k: nat, t: Task): Queues {
    if k < |qs| then qs[k := qs[k] + [t]] else qs
  }

  /** What the rows of queues gain when queue `k` gains task `p` at either end. */
  lemma JoinQueue(qs: Queues, k: nat, q: seq<Task>, p: Task)
    requires k < |qs| && (q == qs[k] + [p] || q == [p] + qs[k])
    ensures Members(qs[k := q]) == Members(qs) + {p}
    ensures Total(qs[k := q]) == Total(qs) + 1
  {
    TotalUpdate(qs, k, q);
    var after := qs[k := q];
    assert p in after[k];
    forall t | t in Members(qs)
      ensures t in Members(after)
    {
      var j :| 0 <= j < |qs| && t in qs[j];
      assert t in after[j];
    }
    forall t | t in Members(after)
      ensures t in Members(qs) + {p}
    {
      var j :| 0 <= j < |after| && t in after[j];
      assert j != k ==> t in qs[j];
    }
  }

  /** What they lose when task `p`, which is in queue `k` only, leaves it. */
  lemma LeaveQueue(qs: Queues, k: nat, p: Task)
    requires k < |qs| && Distinct(qs[k]) && p in qs[k]
    requires forall j :: 0 <= j < |qs| && p in qs[j] ==> j == k
    ensures Members(qs[k := Without(qs[k], p)]) == Members(qs) - {p}
    ensures Total(qs) >= 1 && Total(qs[k := Without(qs[k], p)]) == Total(qs) - 1
  {
    WithoutDistinct(qs[k], p);
    TotalUpdate(qs, k, Without(qs[k], p));
    var after := qs[k := Without(qs[k], p)];
    forall t | t in Members(qs) - {p}
      ensures t in Members(after)
    {
      var j :| 0 <= j < |qs| && t in qs[j];
      assert t in after[j];
    }
    forall t | t in Members(after)
      ensures t in Members(qs) - {p}
    {
      var j :| 0 <= j < |after| && t in after[j];
      assert t in qs[j];
    }
  }

  // ---- bitmap and cached minimum -----------------------------------------------------------------------------

  ghost predicate BitAt(bits: seq<bv8>, k: nat)
    requires |bits| == BITMAP_SIZE && k < MAX_PRIO
  {
    Bit(bits[k / 8], k % 8)
  }

  /** Bit `k` is set exactly when queue `k` is not empty. */
  ghost predicate BitsMatch(bits: seq<bv8>, qs: Queues) {
    && |bits| == BITMAP_SIZE && |qs| == MAX_PRIO
    && forall k :: 0 <= k < MAX_PRIO ==> (BitAt(bits, k) <==> qs[k] != [])
  }

  /** `h` is the least index of a non-empty queue, or MAX_PRIO. */
  ghost predicate IsHighest(qs: Queues, h: int) {
    && |qs| == MAX_PRIO
    && 0 <= h <= MAX_PRIO
    && (h < MAX_PRIO ==> qs[h] != [])
    && forall k :: 0 <= k < h ==> qs[k] == []
  }

  /** The first set bit from `from` on is `h`. */
  ghost predicate FirstBit(bits: seq<bv8>, from: nat, h: int)
    requires |bits| == BITMAP_SIZE
  {
    && from <= h <= MAX_PRIO
    && (h < MAX_PRIO ==> BitAt(bits, h))
    && forall k :: from <= k < h ==> !BitAt(bits, k)
  }

  /** The index depends only on which queues are empty. */
  lemma SameEmptiness(bits: seq<bv8>, qs: Queues, qs': Queues, h: int)
    requires |qs| == |qs'| && forall k :: 0 <= k < |qs| ==> (qs[k] == [] <==> qs'[k] == [])
    ensures BitsMatch(bits, qs) <==> BitsMatch(bits, qs')
    ensures IsHighest(qs, h) <==> IsHighest(qs', h)
  {
  }

  class PrioArray {
    var nrActive: nat
    var highestPrio: int
    const bitmap: array<bv8>
    const queue: array<seq<Task>>

    /** `init_prio_array`. */
    constructor ()
      ensures Linked() && Indexed() && Members(queue[..]) == {} && nrActive == 0
      ensures fresh(bitmap) && fresh(queue)
    {
      nrActive := 0;
      highestPrio := MAX_PRIO;
      bitmap := new bv8[BITMAP_SIZE](_ => 0);
      queue := new seq<Task>[MAX_PRIO](_ => []);
      new;
      TotalZero(queue[..]);
      ZeroByte(0);
    }

    ghost predicate Shape() {
      bitmap.Length == BITMAP_SIZE && queue.Length == MAX_PRIO
    }

    /** The lists are in order: each queued task occurs once, knows its array and its queue, and all are counted. */
    ghost predicate Linked()
      reads this, queue, Members(queue[..])`inArray, Members(queue[..])`linkedIn
    {
      && Shape()
      && nrActive == Total(queue[..])
      && (forall k :: 0 <= k < MAX_PRIO ==> Distinct(queue[k]))
      && (forall k, t :: 0 <= k < MAX_PRIO && t in queue[k] ==>
           t in Members(queue[..]) && t.inArray == this && t.linkedIn == k)
    }

    /** Bitmap and cached highest priority say what the lists say. */
    ghost predicate Indexed()
      reads this, bitmap, queue
    {
      Shape() && BitsMatch(bitmap[..], queue[..]) && IsHighest(queue[..], highestPrio)
    }

    /** `set_bit_map`. */
    method SetBitMap(priority: nat)
      requires Shape() && priority < MAX_PRIO
      modifies bitmap
      ensures forall k :: 0 <= k < MAX_PRIO ==> (BitAt(bitmap[..], k) <==> k == priority || old(BitAt(bitmap[..], k)))
    {
      ghost var was := bitmap[..];
      bitmap[priority / 8] := bitmap[priority / 8] | Mask(priority % 8);
      forall k | 0 <= k < MAX_PRIO
        ensures BitAt(bitmap[..], k) <==> k == priority || BitAt(was, k)
      {
        if k / 8 == priority / 8 {
          SetBit(was[k / 8], priority % 8, k % 8);
        }
      }
    }

    /** `clear_bit_map`. */
    method ClearBitMap(priority: nat)
      requires Shape() && priority < MAX_PRIO
      modifies bitmap
      ensures forall k :: 0 <= k < MAX_PRIO ==> (BitAt(bitmap[..], k) <==> k != priority && old(BitAt(bitmap[..], k)))
    {
      ghost var was := bitmap[..];
      bitmap[priority / 8] := bitmap[priority / 8] & !Mask(priority % 8);
      forall k | 0 <= k < MAX_PRIO
        ensures BitAt(bitmap[..], k) <==> k != priority && BitAt(was, k)
      {
        if k / 8 == priority / 8 {
          ClearBit(was[k / 8], priority % 8, k % 8);
        }
      }
    }

    /**
     * `update_highest_pro`: after an arrival the smaller of the two; after the cached queue emptied, the first set
     * bit from its byte on, found byte by byte and then bit by bit.
     */
    method UpdateHighest(priority: nat, isEnqueue: bool)
      requires Shape()
      modifies `highestPrio
      ensures priority >= MAX_PRIO || old(highestPrio) < priority ==> highestPrio == old(highestPrio)
      ensures priority < MAX_PRIO && priority <= old(highestPrio) ==>
        if isEnqueue then highestPrio == priority
        else if old(highestPrio) == priority then FirstBit(bitmap[..], priority / 8 * 8, highestPrio)
        else highestPrio == old(highestPrio)
    {
      if priority >= MAX_PRIO {
        return;
      }
      if highestPrio < priority {
        return;
      }
      if isEnqueue {
        if highestPrio > priority {
          highestPrio := priority;
        }
        return;
      }
      if highestPrio == priority {
        Rescan(priority);
      }
    }

    /** The rescan of `update_highest_pro`: byte by byte, then bit by bit. */
    method Rescan(priority: nat)
      requires Shape() && priority < MAX_PRIO
      modifies `highestPrio
      ensures FirstBit(bitmap[..], priority / 8 * 8, highestPrio)
    {
      var index := priority / 8;
      while index < BITMAP_SIZE
        invariant priority / 8 <= index <= BITMAP_SIZE
        invariant forall k :: priority / 8 * 8 <= k < index * 8 ==> !BitAt(bitmap[..], k)
      {
        ZeroByte(bitmap[index]);
        if bitmap[index] != 0 {
          break;
        }
        index := index + 1;
      }
      if index == BITMAP_SIZE {
        highestPrio := MAX_PRIO;
      } else {
        ScanByte(index);
      }
    }

    /** The bit loop over a byte that is not zero. */
    method ScanByte(index: nat)
      requires Shape() && index < BITMAP_SIZE && bitmap[index] != 0
      modifies `highestPrio
      ensures index * 8 <= highestPrio < index * 8 + 8 && BitAt(bitmap[..], highestPrio)
      ensures forall k :: index * 8 <= k < highestPrio ==> !BitAt(bitmap[..], k)
    {
      ZeroByte(bitmap[index]);
      var b := bitmap[index];
      hide Bit;
      var off := 0;
      while off < 8
        invariant 0 <= off < 8
        invariant forall k :: 0 <= k < off ==> !Bit(b, k)
        invariant exists k :: off <= k < 8 && Bit(b, k)
      {
        if Bit(b, off) {
          highestPrio := index * 8 + off;
          assert highestPrio / 8 == index && highestPrio % 8 == off;
          forall k | index * 8 <= k < highestPrio
            ensures !BitAt(bitmap[..], k)
          {
            assert k / 8 == index && !Bit(b, k % 8);
          }
          break;
        }
        off := off + 1;
      }
    }

    /** `enqueue_task`: at the tail of the queue of the task's priority. */
    method Enqueue(p: Task)
      requires Linked() && p !in Members(queue[..]) && p.Key() < MAX_PRIO
      modifies `nrActive, `highestPrio, bitmap, queue, p`inArray, p`linkedIn
      ensures Linked() && p.inArray == this && p.linkedIn == p.Key() && nrActive == old(nrActive) + 1
      ensures queue[..] == Added(old(queue[..]), p.Key(), p) && queue[p.Key()] == old(queue[p.Key()]) + [p]
      ensures Members(queue[..]) == old(Members(queue[..])) + {p}
      ensures old(Indexed()) ==> Indexed()
    {
      Place(p, queue[p.Key()] + [p]);
    }

    /** `enqueue_task_head`: at the head of it. */
    method EnqueueHead(p: Task)
      requires Linked() && p !in Members(queue[..]) && p.Key() < MAX_PRIO
      modifies `nrActive, `highestPrio, bitmap, queue, p`inArray, p`linkedIn
      ensures Linked() && p.inArray == this && p.linkedIn == p.Key() && nrActive == old(nrActive) + 1
      ensures queue[..] == old(queue[..])[p.Key() := [p] + old(queue[p.Key()])]
      ensures Members(queue[..]) == old(Members(queue[..])) + {p}
      ensures old(Indexed()) ==> Indexed()
    {
      Place(p, [p] + queue[p.Key()]);
    }

    /** What both have in common after the list operation that makes the task's queue `q`. */
    method Place(p: Task, q: seq<Task>)
      requires Linked() && p !in Members(queue[..]) && p.Key() < MAX_PRIO
      requires q == queue[p.Key()] + [p] || q == [p] + queue[p.Key()]
      modifies `nrActive, `highestPrio, bitmap, queue, p`inArray, p`linkedIn
      ensures Linked() && p.inArray == this && p.linkedIn == p.Key() && nrActive == old(nrActive) + 1
      ensures queue[..] == old(queue[..])[p.Key() := q]
      ensures Members(queue[..]) == old(Members(queue[..])) + {p}
      ensures old(Indexed()) ==> Indexed()
    {
      hide Members, Total, BitAt;
      var priority := p.Key();
      ghost var qs := queue[..];
      assert p !in qs[priority];
      JoinQueue(qs, priority, q, p);
      queue[priority] := q;
      assert queue[..] == qs[priority := q];
      p.linkedIn := priority;
      SetBitMap(priority);
      UpdateHighest(priority, true);
      nrActive := nrActive + 1;
      p.inArray := this;
    }

    /** The task's priority still names its queue, or the task is not alone in it. */
    predicate Detachable(p: Task)
      reads queue, p`prio, p`linkedIn
    {
      p.prio == p.linkedIn || (p.linkedIn < queue.Length && |queue[p.linkedIn]| > 1)
    }

    /**
     * `dequeue_task`: out of whatever queue the task is linked into.  The code then looks at the queue of the task's
     * present priority; if that is not the queue the task came from, an emptied queue keeps its bit.  So bitmap and
     * cached minimum stay right exactly when the priority is still the queue's, or the queue is not emptied.
     */
    method Dequeue(p: Task)
      requires Linked() && p in Members(queue[..]) && p.Sane()
      modifies `nrActive, `highestPrio, bitmap, queue, p`inArray
      ensures Linked() && p.inArray == null && nrActive == old(nrActive) - 1
      ensures queue[..] == Removed(old(queue[..]), p.linkedIn, p)
      ensures Members(queue[..]) == old(Members(queue[..])) - {p}
      ensures old(Indexed()) ==> (Indexed() <==> old(Detachable(p)))
    {
      hide Members, Total, BitsMatch, IsHighest, FirstBit, BitAt;
      ghost var qs, bits, h := queue[..], bitmap[..], highestPrio;
      var k := p.linkedIn;
      QueueOf(p);
      LeaveQueue(qs, k, p);
      WithoutDistinct(qs[k], p);
      nrActive := nrActive - 1;
      queue[k] := Without(queue[k], p);
      assert queue[..] == qs[k := Without(qs[k], p)];
      p.inArray := null;
      if queue[p.prio] == [] {
        ClearBitMap(p.Key());
        UpdateHighest(p.Key(), false);
      }
      if BitsMatch(bits, qs) && IsHighest(qs, h) {
        DequeueIndex(bits, bitmap[..], qs, queue[..], k, p.prio, h, highestPrio);
      }
    }

    /** A member is in the queue it is linked into, and in no other. */
    lemma QueueOf(p: Task)
      requires Linked() && p in Members(queue[..])
      ensures p.inArray == this && p.linkedIn < MAX_PRIO && p in queue[p.linkedIn]
      ensures forall j :: 0 <= j < MAX_PRIO && p in queue[j] ==> j == p.linkedIn
    {
      var k :| 0 <= k < MAX_PRIO && p in queue[..][k];
      assert p in queue[k];
    }

    /** `requeue_task`: to the tail of the queue of the task's priority. */
    method Requeue(p: Task)
      requires Linked() && p in Members(queue[..]) && p.Key() < MAX_PRIO
      modifies queue, p`linkedIn
      ensures Linked() && p.linkedIn == p.Key() && p.inArray == this
      ensures Members(queue[..]) == old(Members(queue[..])) && nrActive == old(nrActive)
      ensures old(p.linkedIn) == p.Key() ==>
        && queue[..] == Added(Removed(old(queue[..]), p.Key(), p), p.Key(), p)
        && (old(Indexed()) ==> Indexed())
    {
      hide Members, Total, BitsMatch, IsHighest;
      ghost var qs := queue[..];
      var k := p.linkedIn;
      QueueOf(p);
      LeaveQueue(qs, k, p);
      WithoutDistinct(qs[k], p);
      queue[k] := Without(queue[k], p);
      ghost var mid := queue[..];
      assert mid == qs[k := Without(qs[k], p)];
      JoinQueue(mid, p.Key(), mid[p.Key()] + [p], p);
      queue[p.Key()] := queue[p.Key()] + [p];
      p.linkedIn := p.Key();
      assert queue[..] == mid[p.Key() := mid[p.Key()] + [p]];
      if k == p.Key() {
        SameEmptiness(bitmap[..], qs, queue[..], highestPrio);
      }
    }
  }

  /** The index structures after queue `k` lost a task whose priority is `prio`. */
  lemma DequeueIndex(bits: seq<bv8>, bits': seq<bv8>, qs: Queues, qs': Queues, k: nat, prio: nat, h: int, h': int)
    requires BitsMatch(bits, qs) && IsHighest(qs, h) && |bits'| == BITMAP_SIZE && |qs'| == MAX_PRIO
    requires k < MAX_PRIO && prio < MAX_PRIO && qs[k] != [] && qs' == qs[k := qs'[k]]
    requires qs'[prio] == [] ==>
      && (forall j :: 0 <= j < MAX_PRIO ==> (BitAt(bits', j) <==> j != prio && BitAt(bits, j)))
      && (if h == prio then FirstBit(bits', prio / 8 * 8, h') else h' == h)
    requires qs'[prio] != [] ==> bits' == bits && h' == h
    ensures BitsMatch(bits', qs') && IsHighest(qs', h') <==> prio == k || qs'[k] != []
  {
    hide BitAt;
    if prio == k {
      if qs'[k] == [] && h == prio {
        RescanFindsLeast(bits', qs', k, h');
      }
    } else if qs'[k] != [] {
      assert forall j :: 0 <= j < MAX_PRIO && j != k ==> qs'[j] == qs[j];
    } else {
      assert BitAt(bits, k);
    }
  }

  /** The rescan may start at the byte of the emptied queue: nothing below it was in use. */
  lemma RescanFindsLeast(bits: seq<bv8>, qs: Queues, k: nat, h: int)
    requires BitsMatch(bits, qs) && k < MAX_PRIO
    requires forall j :: 0 <= j < k ==> qs[j] == []
    requires FirstBit(bits, k / 8 * 8, h)
    ensures IsHighest(qs, h)
  {
    assert k / 8 * 8 <= k;
  }
}
