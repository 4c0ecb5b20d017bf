/**
 * The free-cluster count and hint of the FSINFO sector and the cyclic search over the FAT
 * (kernel/vfs/fat32.c: apply_fat, retake_fat), first as mathematics on a flat FAT.
 */
module FreeSpace {
  import opened Common

  /** The free clusters of the searched range `[0, total)`. */
  ghost function Zeros(entries: seq<u32>, total: nat): (z: set<nat>)
    requires total <= |entries|
  {
    set i | 0 <= i < total && entries[i] == 0
  }

  /** Steps of a cyclic scan of `[0, total)` that starts at `s` until it meets `x`. */
  function Dist(total: nat, s: nat, x: nat): nat
    requires s < total && x < total
  {
    if s <= x then x - s else x + total - s
  }

  /** Where `apply_fat` starts looking when the hint is `hint` (also for hints outside the range). */
  function ScanStart(total: nat, hint: nat): nat {
    if hint + 1 >= total then 0 else hint + 1
  }

  /** The cluster a cyclic scan from `s` looks at after `k` steps. */
  function ScanPos(total: nat, s: nat, k: nat): (p: nat)
    requires s < total && k < total
    ensures p < total && Dist(total, s, p) == k
  {
    if s + k < total then s + k else s + k - total
  }

  /** `i` is the first free cluster that a cyclic scan from `s` meets. */
  ghost predicate FirstZeroFrom(entries: seq<u32>, total: nat, s: nat, i: nat)
    requires total <= |entries| && s < total
  {
    && i in Zeros(entries, total)
    && forall z :: z in Zeros(entries, total) ==> Dist(total, s, i) <= Dist(total, s, z)
  }

  /** A scan that found a used cluster has every free one still before it. */
  lemma NotYet(entries: seq<u32>, total: nat, s: nat, k: nat)
    requires total <= |entries| && s < total && k < total
    requires entries[ScanPos(total, s, k)] != 0
    requires forall y :: y in Zeros(entries, total) ==> k <= Dist(total, s, y)
    ensures forall y :: y in Zeros(entries, total) ==> k < Dist(total, s, y)
  {
  }

  /** The position of the scan that started at `s` after `k` passes of the loop, however many. */
  function ScanAt(total: nat, s: nat, k: nat): (p: nat)
    requires s < total
    ensures p < total
    decreases k
  {
    if k == 0 then s else
      var p := ScanAt(total, s, k - 1);
      if p + 1 >= total then 0 else p + 1
  }

  /** The first `total` passes look at every cluster of the range. */
  lemma {:induction false} ScanReaches(total: nat, s: nat, k: nat)
    requires s < total && k < total
    ensures ScanAt(total, s, k) == ScanPos(total, s, k)
  {
    if k > 0 {
      ScanReaches(total, s, k - 1);
    }
  }

  /** The search of `apply_fat` comes to an end exactly when the searched range has a free cluster. */
  lemma SearchEndsIff(entries: seq<u32>, total: nat, s: nat)
    requires s < total <= |entries|
    ensures (exists k: nat :: entries[ScanAt(total, s, k)] == 0) <==> Zeros(entries, total) != {}
  {
    if Zeros(entries, total) != {} {
      var z :| z in Zeros(entries, total);
      ScanReaches(total, s, Dist(total, s, z));
      assert ScanPos(total, s, Dist(total, s, z)) == z;
    } else {
      forall k: nat
        ensures entries[ScanAt(total, s, k)] != 0
      {
        assert ScanAt(total, s, k) !in Zeros(entries, total);
      }
    }
  }

  /**
   * What the FSINFO sector has to say about the FAT.  `reserved` clusters were handed out and not yet marked.
   * `lost` is what the count misses: clusters that were handed out and then abandoned, less those that are counted
   * although the search never looks at them.  The hint names a free cluster if there is one; as long as one is left
   * that is not reserved, the hint names such a cluster and the scan order from it meets the others of them before it
   * meets a reserved one.
   */
  ghost predicate FsInfoOk(entries: seq<u32>, total: nat, reserved: set<nat>, lost: int, free: nat, hint: nat) {
    && total <= |entries|
    && reserved <= Zeros(entries, total)
    && free + lost == |Zeros(entries, total) - reserved|
    && (Zeros(entries, total) != {} ==> hint in Zeros(entries, total))
    && (Zeros(entries, total) - reserved != {} ==>
      && hint !in reserved
      && forall z, p :: z in Zeros(entries, total) - reserved && p in reserved ==>
        Dist(total, hint, z) < Dist(total, hint, p))
  }

  /** With nothing reserved there is little to say. */
  lemma NoneReserved(entries: seq<u32>, total: nat, lost: int, free: nat, hint: nat)
    requires total <= |entries|
    ensures FsInfoOk(entries, total, {}, lost, free, hint) <==>
            free + lost == |Zeros(entries, total)| && (Zeros(entries, total) != {} ==> hint in Zeros(entries, total))
  {
    assert Zeros(entries, total) - {} == Zeros(entries, total);
  }

  /** A volume can be mounted with correct book-keeping exactly when the searched range is full or the hint is free. */
  lemma MountableIff(entries: seq<u32>, total: nat, free: nat, hint: nat)
    requires total <= |entries|
    ensures (exists lost :: FsInfoOk(entries, total, {}, lost, free, hint)) <==>
            Zeros(entries, total) == {} || (hint < total && entries[hint] == 0)
  {
    var zs := Zeros(entries, total);
    assert zs - {} == zs;
    if zs == {} || (hint < total && entries[hint] == 0) {
      assert FsInfoOk(entries, total, {}, |zs| - free, free, hint);
    }
  }

  /**
   * `apply_fat`, which always hands out the hint, hands out a cluster that is free and not reserved exactly while there
   * is one; after that it hands a reserved cluster out again.
   */
  lemma HandsOutFreeIff(entries: seq<u32>, total: nat, reserved: set<nat>, lost: int, free: nat, hint: nat)
    requires FsInfoOk(entries, total, reserved, lost, free, hint)
    ensures hint < total && entries[hint] == 0 && hint !in reserved <==> free + lost > 0
    ensures free + lost == 0 && reserved != {} ==> hint in reserved
  {
    if hint < total && entries[hint] == 0 && hint !in reserved {
      assert hint in Zeros(entries, total) - reserved;
    }
  }

  /**
   * A freshly formatted volume of 4 clusters, numbered 2 to 5, the root directory in cluster 2: the count says 3, but
   * the search looks at clusters 0 to 3 only.  A hint of 2, where the standard lets the search begin, hands the root's
   * cluster out; with a hint of 3 that cluster is handed out and marked, and then the next search never ends although
   * the count says that 2 clusters are left.
   */
  lemma FreshVolumeRunsOut()
    ensures var e: seq<u32> := [0x0fff_fff8, 0x0fff_ffff, 0x0fff_ffff, 0, 0, 0];
            && (forall lost :: !FsInfoOk(e, 4, {}, lost, 3, 2))
            && FsInfoOk(e, 4, {}, -2, 3, 3)
            && FirstZeroFrom(e, 4, ScanStart(4, 3), 3)
            && FsInfoOk(e[3 := 0x0fff_ffff], 4, {}, -2, 2, 3)
            && forall k: nat :: e[3 := 0x0fff_ffff][ScanAt(4, ScanStart(4, 3), k)] != 0
  {
    var e: seq<u32> := [0x0fff_fff8, 0x0fff_ffff, 0x0fff_ffff, 0, 0, 0];
    assert Zeros(e, 4) == {3} && Zeros(e, 4) - {} == {3};
    var e' := e[3 := 0x0fff_ffff];
    assert Zeros(e', 4) == {} && Zeros(e', 4) - {} == {};
    SearchEndsIff(e', 4, ScanStart(4, 3));
  }

  /** With a cluster left, the hint is a data cluster that is free and that nobody holds. */
  lemma HintIsFree(entries: seq<u32>, total: nat, reserved: set<nat>, lost: int, free: nat, hint: nat)
    requires FsInfoOk(entries, total, reserved, lost, free, hint) && free + lost > 0
    requires total >= 2 && entries[0] != 0 && entries[1] != 0
    ensures Zeros(entries, total) != {} && 2 <= hint < total && entries[hint] == 0 && hint !in reserved
  {
  }

  /** A reserved cluster is still free in the FAT. */
  lemma ReservedIsFree(entries: seq<u32>, total: nat, reserved: set<nat>, lost: int, free: nat, hint: nat, c: nat)
    requires FsInfoOk(entries, total, reserved, lost, free, hint) && c in reserved
    ensures c < total <= |entries| && entries[c] == 0
  {
  }

  /** Handing out the hinted cluster and moving the hint keeps the book-keeping exact. */
  lemma ApplyKeeps(entries: seq<u32>, total: nat, reserved: set<nat>, lost: int, free: nat, hint: nat, next: nat)
    requires FsInfoOk(entries, total, reserved, lost, free, hint) && free > 0 && free + lost > 0
    requires FirstZeroFrom(entries, total, ScanStart(total, hint), next)
    ensures hint !in reserved
    ensures FsInfoOk(entries, total, reserved + {hint}, lost, free - 1, next)
  {
    var zs := Zeros(entries, total);
    var s := ScanStart(total, hint);
    assert zs - (reserved + {hint}) == (zs - reserved) - {hint};
    if (zs - reserved) - {hint} != {} {
      var z0 :| z0 in (zs - reserved) - {hint};
      assert Dist(total, s, next) <= Dist(total, s, z0) < Dist(total, s, hint);
      forall p | p in reserved
        ensures Dist(total, s, next) < Dist(total, s, p)
      {
        assert Dist(total, hint, z0) < Dist(total, hint, p);
      }
      assert next in zs - (reserved + {hint});
      forall z, p | z in zs - (reserved + {hint}) && p in reserved + {hint}
        ensures Dist(total, next, z) < Dist(total, next, p)
      {
        assert Dist(total, s, next) <= Dist(total, s, z);
        assert z != hint && z in zs - reserved;
        if p != hint {
          assert Dist(total, hint, z) < Dist(total, hint, p);
        }
      }
    }
  }

  /** The scan comes back to the cluster that it started behind only if no other one is free. */
  lemma OnlyItself(entries: seq<u32>, total: nat, hint: nat)
    requires hint < total <= |entries| && FirstZeroFrom(entries, total, ScanStart(total, hint), hint)
    ensures Zeros(entries, total) == {hint}
  {
    forall z | z in Zeros(entries, total)
      ensures z == hint
    {
      assert Dist(total, ScanStart(total, hint), hint) <= Dist(total, ScanStart(total, hint), z);
    }
  }

  /** Marking a reserved cluster as used takes it off the reserved set and changes nothing else. */
  lemma MarkKeeps(entries: seq<u32>, total: nat, reserved: set<nat>, lost: int, free: nat, hint: nat, c: nat, v: u32)
    requires FsInfoOk(entries, total, reserved, lost, free, hint)
    requires c in reserved && v != 0 && (hint == c ==> Zeros(entries, total) == {c})
    ensures FsInfoOk(entries[c := v], total, reserved - {c}, lost, free, hint)
  {
    assert Zeros(entries[c := v], total) == Zeros(entries, total) - {c};
    assert Zeros(entries[c := v], total) - (reserved - {c}) == Zeros(entries, total) - reserved;
  }

  /** Rewriting a used entry with another non-zero value does not touch the free space. */
  lemma RelinkKeeps(entries: seq<u32>, total: nat, reserved: set<nat>, lost: int, free: nat, hint: nat, c: nat, v: u32)
    requires FsInfoOk(entries, total, reserved, lost, free, hint)
    requires c < |entries| && entries[c] != 0 && v != 0
    ensures FsInfoOk(entries[c := v], total, reserved, lost, free, hint)
    ensures Zeros(entries[c := v], total) == Zeros(entries, total)
  {
    assert Zeros(entries[c := v], total) == Zeros(entries, total);
  }

  /** Giving up on a reserved cluster without marking it loses one cluster from the count, for good. */
  lemma AbandonLoses(entries: seq<u32>, total: nat, lost: int, free: nat, hint: nat, c: nat)
    requires FsInfoOk(entries, total, {c}, lost, free, hint)
    ensures FsInfoOk(entries, total, {}, lost + 1, free, hint)
  {
    assert Zeros(entries, total) - {} == Zeros(entries, total);
    assert |Zeros(entries, total) - {c}| == |Zeros(entries, total)| - 1;
  }

  /** The hint after `retake_fat` gave back cluster `c`. */
  function RetakenHint(hint: nat, c: nat): nat {
    if c < hint then c else hint
  }

  /**
   * `retake_fat` keeps the book-keeping exactly when the cluster lies at or below the hint, or the hint names a free
   * cluster already, or the search does not see the cluster at all; in that case the count has one more cluster that
   * the search misses.
   */
  lemma RetakeKeepsIff(entries: seq<u32>, total: nat, lost: int, free: nat, hint: nat, c: nat)
    requires FsInfoOk(entries, total, {}, lost, free, hint)
    requires c < |entries| && entries[c] != 0
    ensures var lost' := if c < total then lost else lost - 1;
            FsInfoOk(entries[c := 0], total, {}, lost', free + 1, RetakenHint(hint, c)) <==>
            c >= total || c <= hint || (hint < total && entries[hint] == 0)
  {
    NoneReserved(entries, total, lost, free, hint);
    NoneReserved(entries[c := 0], total, if c < total then lost else lost - 1, free + 1, RetakenHint(hint, c));
    ZeroAdded(entries, total, c);
    hide FsInfoOk;
    var zs := Zeros(entries, total);
    assert hint in zs <==> hint < total && entries[hint] == 0;
    hide Zeros;
    assert c < total ==> |zs + {c}| == |zs| + 1;
  }

  lemma ZeroAdded(entries: seq<u32>, total: nat, c: nat)
    requires total <= |entries| && c < |entries| && entries[c] != 0
    ensures Zeros(entries[c := 0], total) == if c < total then Zeros(entries, total) + {c} else Zeros(entries, total)
    ensures c !in Zeros(entries, total) && (forall z :: z in Zeros(entries, total) ==> z < total)
  {
  }

  /**
   * With an exact count the condition is one that the code could test: some cluster is free, or `c` is at or below the
   * hint.
   */
  lemma RetakeConditionWhenNothingLost(entries: seq<u32>, total: nat, free: nat, hint: nat, c: nat)
    requires FsInfoOk(entries, total, {}, 0, free, hint)
    ensures (c <= hint || (hint < total && entries[hint] == 0)) <==> (c <= hint || free > 0)
  {
    HandsOutFreeIff(entries, total, {}, 0, free, hint);
  }

  /**
   * A full volume whose hint is cluster 2: giving back cluster 3 leaves the hint on the used cluster 2, and
   * `apply_fat`, which always hands out the hinted cluster, would hand out cluster 2 a second time.
   */
  lemma RetakeLeavesStaleHint()
    ensures var e: seq<u32> := [0x0fff_fff8, 0x0fff_ffff, 0x0fff_ffff, 0x0fff_ffff];
            && FsInfoOk(e, 4, {}, 0, 0, 2)
            && !FsInfoOk(e[3 := 0], 4, {}, 0, 1, RetakenHint(2, 3))
            && e[3 := 0][RetakenHint(2, 3)] != 0
  {
    var e: seq<u32> := [0x0fff_fff8, 0x0fff_ffff, 0x0fff_ffff, 0x0fff_ffff];
    assert Zeros(e, 4) - {} == {};
    RetakeKeepsIff(e, 4, 0, 0, 2, 3);
  }

  /** The FAT after the clusters of `s` were given back. */
  function Cleared(entries: seq<u32>, s: seq<u32>): (e: seq<u32>)
    ensures |e| == |entries|
  {
    seq(|entries|, k requires 0 <= k < |entries| => if k in s then 0 else entries[k])
  }

  /** The hint after the clusters of `s` were given back one after the other. */
  function ClearedHint(hint: nat, s: seq<u32>): (h: nat)
    ensures h <= hint && (h == hint || h in s)
    ensures forall c :: c in s ==> h <= c
  {
    if s == [] then hint else
      assert s == s[..|s| - 1] + [s[|s| - 1]];
      RetakenHint(ClearedHint(hint, s[..|s| - 1]), s[|s| - 1])
  }

  lemma ClearedStep(entries: seq<u32>, s: seq<u32>, i: nat)
    requires i < |s| && s[i] < |entries|
    ensures Cleared(entries, s[..i + 1]) == Cleared(entries, s[..i])[s[i] := 0]
    ensures forall h: nat :: ClearedHint(h, s[..i + 1]) == RetakenHint(ClearedHint(h, s[..i]), s[i])
  {
    assert s[..i + 1][..i] == s[..i];
    assert s[..i + 1] == s[..i] + [s[i]];
  }

  /** The clusters of `s` that the search can see. */
  ghost function Seen(s: seq<u32>, total: nat): set<nat> {
    set c: int | c in s && 0 <= c < total
  }

  /** How many of the clusters of `s` the search cannot see. */
  ghost function Unseen(s: seq<u32>, total: nat): int {
    |s| - |Seen(s, total)|
  }

  lemma ClearedZeros(entries: seq<u32>, total: nat, s: seq<u32>)
    requires total <= |entries|
    requires forall c :: c in s ==> c < |entries| && entries[c] != 0
    ensures Zeros(Cleared(entries, s), total) == Zeros(entries, total) + Seen(s, total)
    ensures Zeros(entries, total) !! Seen(s, total)
  {
  }

  /**
   * The condition under which giving back the clusters of `s` keeps the count and the hint correct: the search can see
   * none of them, or one that it sees lies at or below the hint, or the hint named a free cluster already.
   */
  ghost predicate RetakeOk(entries: seq<u32>, total: nat, hint: nat, s: seq<u32>)
    requires total <= |entries|
  {
    || (forall c :: c in s ==> c >= total)
    || (exists c :: c in s && c < total && c <= hint)
    || (hint < total && entries[hint] == 0)
  }

  /**
   * Giving back a whole chain keeps the book-keeping exactly under that condition.  Clusters that the search cannot see
   * are counted from then on without being there for `apply_fat`.
   */
  lemma RetakeAllKeepsIff(entries: seq<u32>, total: nat, lost: int, free: nat, hint: nat, s: seq<u32>)
    requires FsInfoOk(entries, total, {}, lost, free, hint)
    requires forall c :: c in s ==> c < |entries| && entries[c] != 0
    ensures FsInfoOk(Cleared(entries, s), total, {}, lost - Unseen(s, total), free + |s|, ClearedHint(hint, s)) <==>
            RetakeOk(entries, total, hint, s)
  {
    assert total <= |entries|;
    hide Cleared, ClearedHint, FsInfoOk;
    ClearedZeros(entries, total, s);
    var zs, zs' := Zeros(entries, total), Zeros(Cleared(entries, s), total);
    NoneReserved(entries, total, lost, free, hint);
    NoneReserved(Cleared(entries, s), total, lost - Unseen(s, total), free + |s|, ClearedHint(hint, s));
    assert |zs'| == |zs| + |Seen(s, total)|;
    ClearedHintFree(hint, s, total, zs, zs');
    if zs' == {} {
      assert forall c :: c in s ==> c !in Seen(s, total);
    }
  }

  /** What the count misses after the clusters of `s` were given back through the 32-bit counter. */
  ghost function LostAfter(lost: int, free: u32, s: seq<u32>, total: nat): int {
    lost - Unseen(s, total) + (free + |s| - Add32(free, |s|))
  }

  /** The same for the 32-bit counter. */
  lemma ReadyAfterRetake(entries: seq<u32>, total: nat, lost: int, free: u32, hint: nat, s: seq<u32>)
    requires forall c :: c in s ==> c < |entries| && entries[c] != 0
    ensures FsInfoOk(entries, total, {}, lost, free, hint) ==>
      (FsInfoOk(Cleared(entries, s), total, {}, LostAfter(lost, free, s, total), Add32(free, |s|),
                ClearedHint(hint, s)) <==>
       RetakeOk(entries, total, hint, s))
  {
    hide Zeros, Cleared, ClearedHint, RetakeOk, Unseen, Add32;
    if FsInfoOk(entries, total, {}, lost, free, hint) {
      RetakeAllKeepsIff(entries, total, lost, free, hint, s);
    }
  }

  /** The hint names a free cluster afterwards exactly when it did before or was lowered to one that the search sees. */
  lemma ClearedHintFree(hint: nat, s: seq<u32>, total: nat, zs: set<nat>, zs': set<nat>)
    requires zs' == zs + Seen(s, total) && forall z :: z in zs ==> z < total
    ensures ClearedHint(hint, s) in zs' <==> (exists c :: c in s && c < total && c <= hint) || hint in zs
  {
    var h := ClearedHint(hint, s);
    if h in s {
      assert h <= hint;
    } else {
      assert h == hint;
    }
  }
}
