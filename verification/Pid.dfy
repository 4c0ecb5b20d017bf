/** Process numbers from a bitmap with a cached next candidate (kernel/pc/pid.c, include/zjunix/pid.h). */
module Pid {
  import opened Common
  import opened Bits

  const PID_NUM := 256
  const PID_BYTES := 32
  const IDLE_PID: u32 := 0
  const INIT_PID: u32 := 1
  /** What `pid_alloc` returns when it fails: -1 as an unsigned number. */
  const NO_PID: u32 := 0xffff_ffff

  /** `~(1 << pid & 0x07)`: the shift, which the machine takes modulo 32, binds tighter than the mask. */
  function FreeMask(pid: u32): bv8 {
    if pid % 32 < 3 then !Mask(pid % 32) else 0xff
  }

  class PidMap {
    const pidmap: array<bv8>
    var nextPid: u32
    /** The numbers whose bit is set. */
    ghost var used: set<u32>

    ghost predicate Valid()
      reads this, pidmap
    {
      && pidmap.Length == PID_BYTES
      && 1 <= nextPid < PID_NUM
      && (forall p :: p in used ==> p < PID_NUM)
      && (forall p: u32 :: p < PID_NUM ==> (p in used <==> Bit(pidmap[p / 8], p % 8)))
    }

    /** `init_pid`. */
    constructor ()
      ensures Valid() && used == {IDLE_PID} && nextPid == INIT_PID && fresh(pidmap)
    {
      pidmap := new bv8[PID_BYTES];
      nextPid := INIT_PID;
      used := {IDLE_PID};
      new;
      for i := 1 to PID_BYTES
        modifies pidmap
        invariant forall k :: 1 <= k < i ==> pidmap[k] == 0
      {
        pidmap[i] := 0;
      }
      pidmap[0] := 0x01;
      ZeroByte(0);
      assert forall k :: 0 <= k < 8 ==> (Bit(0x01, k) <==> k == 0);
    }

    /** `pid_check`: the number is in range and not in use. */
    method Check(pid: u32) returns (free: bool)
      requires Valid()
      ensures free <==> pid < PID_NUM && pid !in used
    {
      if pid >= PID_NUM {
        return false;
      }
      return !Bit(pidmap[pid / 8], pid % 8);
    }

    /** The bit that `pid_alloc` sets. */
    method Take(pid: u32, next: u32)
      requires Valid() && pid < PID_NUM && 1 <= next < PID_NUM
      modifies this, pidmap
      ensures Valid() && used == old(used) + {pid} && nextPid == next
    {
      ghost var was := pidmap[..];
      pidmap[pid / 8] := pidmap[pid / 8] | Mask(pid % 8);
      nextPid := next;
      used := used + {pid};
      forall p: u32 | p < PID_NUM
        ensures p in used <==> Bit(pidmap[p / 8], p % 8)
      {
        if p / 8 == pid / 8 {
          SetBit(was[p / 8], pid % 8, p % 8);
        }
      }
    }

    /**
     * `pid_alloc`: the cached candidate if it is free, else the least free number from 1 on; it fails exactly when
     * none is left.  A number that is handed out was free, and the candidate stays in range.
     */
    method Alloc() returns (pid: u32)
      requires Valid()
      modifies this, pidmap
      ensures Valid()
      ensures pid == NO_PID <==> forall p: u32 :: 1 <= p < PID_NUM ==> p in old(used)
      ensures pid == NO_PID ==> used == old(used) && nextPid == old(nextPid)
      ensures pid != NO_PID ==>
        && 1 <= pid < PID_NUM && pid !in old(used) && used == old(used) + {pid}
        && nextPid == (if pid < PID_NUM - 1 then pid + 1 else 1)
        && (pid == old(nextPid) || (old(nextPid) in old(used) && forall p: u32 :: 1 <= p < pid ==> p in old(used)))
    {
      var free := Check(nextPid);
      if free {
        pid := nextPid;
        Take(pid, if nextPid < PID_NUM - 1 then nextPid + 1 else 1);
        return;
      }
      var i: u32 := 1;
      while i < PID_NUM - 1
        invariant 1 <= i <= PID_NUM - 1 && Valid() && unchanged(this) && unchanged(pidmap)
        invariant forall p: u32 :: 1 <= p < i ==> p in used
      {
        free := Check(i);
        if free {
          pid := i;
          Take(pid, i + 1);
          return;
        }
        i := i + 1;
      }
      free := Check(i);
      if i == PID_NUM - 1 && free {
        pid := i;
        Take(pid, 1);
        return;
      }
      return NO_PID;
    }

    /**
     * `pid_free`: reports 1 for a number that is not in use.  Otherwise it clears the number's bit exactly when the
     * number is 0, 1 or 2 modulo 32; any other number stays taken for good.  No other number is affected.
     */
    method Free(pid: u32) returns (err: u32)
      requires Valid() && pid < PID_NUM
      modifies this, pidmap
      ensures Valid() && nextPid == old(nextPid)
      ensures err == if pid in old(used) then 0 else 1
      ensures used == if pid % 32 < 3 then old(used) - {pid} else old(used)
    {
      hide Mask, Bit;
      var free := Check(pid);
      if free {
        return 1;
      }
      ghost var was := pidmap[..];
      pidmap[pid / 8] := pidmap[pid / 8] & FreeMask(pid);
      if pid % 32 < 3 {
        used := used - {pid};
        assert pid % 32 == pid % 8;
      }
      forall p: u32 | p < PID_NUM
        ensures p in used <==> Bit(pidmap[p / 8], p % 8)
      {
        if p / 8 == pid / 8 {
          if pid % 32 < 3 {
            ClearBit(was[p / 8], pid % 8, p % 8);
          } else {
            assert was[p / 8] & 0xff == was[p / 8];
          }
        }
      }
      return 0;
    }
  }
}
