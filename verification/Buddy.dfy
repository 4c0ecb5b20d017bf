/**
 * Allocation from the buddy system's free lists (kernel/mm/mybuddy.c: __alloc_pages, alloc_pages;
 * include/zjunix/buddy.h).
 */
module Buddy {
  import opened Common

  const MAX_ORDER := 4

  datatype PageFlag = Reserved | Allocated | Slab | Free

  function Pow2(k: nat): (r: nat)
    ensures r >= 1
  {
    if k == 0 then 1 else 2 * Pow2(k - 1)
  }

  /** The sizes of the blocks. */
  lemma BlockSizes()
    ensures Pow2(0) == 1 && Pow2(1) == 2 && Pow2(2) == 4 && Pow2(3) == 8 && Pow2(4) == 16
  {
    assert Pow2(2) == 2 * Pow2(1) && Pow2(3) == 2 * Pow2(2) && Pow2(4) == 2 * Pow2(3);
  }

  /** The `q`-th multiple of 2^k. */
  function Multiple(q: nat, k: nat): nat {
    q * Pow2(k)
  }

  /** Page `b` is where a block of level `k` may begin. */
  ghost predicate Aligned(b: nat, k: nat) {
    exists q: nat :: b == Multiple(q, k)
  }

  /** The free lists, by level; a block is known by its first page. */
  type Lists = seq<seq<nat>>

  /** Page `p` lies in the block of level `k` at `b`. */
  predicate Inside(p: nat, b: nat, k: nat) {
    b <= p < b + Pow2(k)
  }

  ghost predicate Apart(b: nat, k: nat, c: nat, l: nat) {
    b + Pow2(k) <= c || c + Pow2(l) <= b
  }

  /** Page `p` is in some free block. */
  ghost predicate IsFree(lists: Lists, p: nat) {
    exists k, b :: 0 <= k < |lists| && b in lists[k] && Inside(p, b, k)
  }

  /** Well-formed free lists over `total` pages: aligned blocks, each once, none overlapping another. */
  ghost predicate WellFormed(lists: Lists, total: nat) {
    && |lists| == MAX_ORDER + 1
    && (forall k :: 0 <= k < |lists| ==> Distinct(lists[k]))
    && (forall k, b :: 0 <= k < |lists| && b in lists[k] ==> Aligned(b, k) && b + Pow2(k) <= total)
    && forall k, b, l, c :: 0 <= k < |lists| && b in lists[k] && 0 <= l < |lists| && c in lists[l] ==>
         (k == l && b == c) || Apart(b, k, c, l)
  }

  /** A block that could be added: aligned, inside, and apart from every free block. */
  ghost predicate Addable(lists: Lists, total: nat, b: nat, k: nat) {
    && Aligned(b, k) && b + Pow2(k) <= total
    && forall l, c :: 0 <= l < |lists| && c in lists[l] ==> Apart(b, k, c, l)
  }

  /** Taking the first block of a list. */
  lemma Taken(lists: Lists, total: nat, k: nat)
    requires WellFormed(lists, total) && k < |lists| && lists[k] != []
    ensures var rest := lists[k := lists[k][1..]];
      && WellFormed(rest, total) && Addable(rest, total, lists[k][0], k)
      && forall p: nat :: IsFree(lists, p) <==> IsFree(rest, p) || Inside(p, lists[k][0], k)
  {
    var b := lists[k][0];
    var rest := lists[k := lists[k][1..]];
    assert b in lists[k];
    assert forall l, c :: 0 <= l < |rest| && c in rest[l] ==> c in lists[l] && !(l == k && c == b);
    assert forall l, c :: 0 <= l < |lists| && c in lists[l] && !(l == k && c == b) ==> c in rest[l];
    forall p: nat | IsFree(lists, p)
      ensures IsFree(rest, p) || Inside(p, b, k)
    {
      var l, c :| 0 <= l < |lists| && c in lists[l] && Inside(p, c, l);
      assert !(l == k && c == b) ==> c in rest[l];
    }
    forall p: nat | IsFree(rest, p) || Inside(p, b, k)
      ensures IsFree(lists, p)
    {
      if Inside(p, b, k) {
        assert b in lists[k];
      } else {
        var l, c :| 0 <= l < |rest| && c in rest[l] && Inside(p, c, l);
        assert c in lists[l];
      }
    }
  }

  lemma PowStep(k: nat)
    ensures Pow2(k + 1) == 2 * Pow2(k)
  {
  }

  /** What adding a block to a list adds to the free pages. */
  lemma Gained(lists: Lists, k: nat, b: nat)
    requires k < |lists|
    ensures forall p: nat :: IsFree(lists[k := [b] + lists[k]], p) <==> IsFree(lists, p) || Inside(p, b, k)
  {
    hide Pow2, Inside;
    var more := lists[k := [b] + lists[k]];
    assert b in more[k];
    assert forall l, c :: 0 <= l < |lists| && c in lists[l] ==> c in more[l];
    assert forall l, c :: 0 <= l < |more| && c in more[l] ==> c in lists[l] || (l == k && c == b);
  }

  /** A block that fits can be added. */
  lemma Added(lists: Lists, total: nat, k: nat, b: nat)
    requires WellFormed(lists, total) && k < |lists| && Addable(lists, total, b, k)
    ensures WellFormed(lists[k := [b] + lists[k]], total)
  {
    hide Pow2, Aligned;
    var more := lists[k := [b] + lists[k]];
    assert b !in lists[k];
    assert forall l, c :: 0 <= l < |more| && c in more[l] ==> c in lists[l] || (l == k && c == b);
  }

  /** Both halves of a block that fits are apart from every free block and from each other. */
  lemma HalvesApart(lists: Lists, total: nat, b: nat, k: nat)
    requires Addable(lists, total, b, k + 1)
    ensures Addable(lists, total, b, k) && Addable(lists, total, b + Pow2(k), k) && Apart(b, k, b + Pow2(k), k)
  {
    PowStep(k);
    HalvesAligned(b, k);
    hide Pow2, Aligned;
  }

  /** Giving the upper half of a block of level `k + 1` to the list of level `k`. */
  lemma Split(lists: Lists, total: nat, b: nat, k: nat)
    requires WellFormed(lists, total) && k < MAX_ORDER && Addable(lists, total, b, k + 1)
    ensures var upper := b + Pow2(k); var more := lists[k := [upper] + lists[k]];
      && WellFormed(more, total) && Addable(more, total, b, k)
      && forall p: nat :: IsFree(more, p) <==> IsFree(lists, p) || Inside(p, upper, k)
  {
    HalvesApart(lists, total, b, k);
    var upper := b + Pow2(k);
    Added(lists, total, k, upper);
    Gained(lists, k, upper);
    hide Pow2, IsFree, Aligned, Apart;
    var more := lists[k := [upper] + lists[k]];
    assert forall l, c :: 0 <= l < |more| && c in more[l] ==> c in lists[l] || (l == k && c == upper);
  }

  /** The upper half lies inside and is none of the free blocks. */
  lemma UpperIsNew(lists: Lists, total: nat, b: nat, k: nat)
    requires Addable(lists, total, b, k + 1)
    ensures b < b + Pow2(k) < total
    ensures forall l, c :: 0 <= l < |lists| && c in lists[l] ==> c != b + Pow2(k) && c != b
  {
    HalvesApart(lists, total, b, k);
    PowPositive(k);
    hide Pow2, Aligned;
    forall l, c | 0 <= l < |lists| && c in lists[l]
      ensures c != b + Pow2(k) && c != b
    {
      PowPositive(l);
      assert Apart(b + Pow2(k), k, c, l) && Apart(b, k, c, l);
    }
  }

  /** Free blocks are marked as free and of their level. */
  ghost predicate AllMarked(lists: Lists, flags: seq<PageFlag>, levels: seq<nat>)
    requires |flags| == |levels|
  {
    forall k, b :: 0 <= k < |lists| && b in lists[k] ==> b < |flags| && flags[b] == Free && levels[b] == k
  }

  lemma MarkedToo(lists: Lists, flags: seq<PageFlag>, levels: seq<nat>, k: nat, b: nat)
    requires |flags| == |levels| && k < |lists| && b < |flags| && AllMarked(lists, flags, levels)
    requires forall l, c :: 0 <= l < |lists| && c in lists[l] ==> c != b
    ensures AllMarked(lists[k := [b] + lists[k]], flags[b := Free], levels[b := k])
  {
    var more := lists[k := [b] + lists[k]];
    forall l, c | 0 <= l < |more| && c in more[l]
      ensures c < |flags| && flags[b := Free][c] == Free && levels[b := k][c] == l
    {
      if c in lists[l] {
        assert c != b && c < |flags| && flags[c] == Free && levels[c] == l;
      } else {
        assert l == k && c == b;
      }
    }
  }

  lemma PowPositive(k: nat)
    ensures Pow2(k) > 0
  {
  }

  lemma HalvesAligned(b: nat, k: nat)
    requires Aligned(b, k + 1)
    ensures Aligned(b, k) && Aligned(b + Pow2(k), k)
  {
    PowStep(k);
    hide Pow2;
    var q: nat :| b == Multiple(q, k + 1);
    assert b == Multiple(2 * q, k);
    assert b + Pow2(k) == Multiple(2 * q + 1, k);
  }

  /** The free lists after block `lists[from][0]` was taken and split down to `level`. */
  ghost predicate SplitDown(lists: Lists, lists': Lists, level: nat, from: nat)
    requires |lists| == |lists'| == MAX_ORDER + 1 && level <= from <= MAX_ORDER && lists[from] != []
  {
    && lists'[from] == lists[from][1..]
    && (forall k :: level <= k < from ==> lists'[k] == [lists[from][0] + Pow2(k)] + lists[k])
    && forall k :: 0 <= k <= MAX_ORDER && !(level <= k <= from) ==> lists'[k] == lists[k]
  }

  lemma SplitNone(lists: Lists, from: nat)
    requires |lists| == MAX_ORDER + 1 && from <= MAX_ORDER && lists[from] != []
    ensures SplitDown(lists, lists[from := lists[from][1..]], from, from)
  {
  }

  lemma SplitOnce(lists: Lists, now: Lists, k: nat, from: nat)
    requires |lists| == |now| == MAX_ORDER + 1 && k < from <= MAX_ORDER && lists[from] != []
    requires SplitDown(lists, now, k + 1, from)
    ensures SplitDown(lists, now[k := [lists[from][0] + Pow2(k)] + now[k]], k, from)
  {
    hide Pow2;
  }

  /** Flags and levels of all pages but the taken one and the first ones of the new free blocks are as before. */
  ghost predicate KeptButFor(flags: seq<PageFlag>, levels: seq<nat>, flags': seq<PageFlag>, levels': seq<nat>,
                             page: nat, level: nat, from: nat)
  {
    && |flags| == |levels| == |flags'| == |levels'|
    && forall x :: 0 <= x < |flags| && x != page && (forall k :: level <= k < from ==> x != page + Pow2(k)) ==>
         flags'[x] == flags[x] && levels'[x] == levels[x]
  }

  lemma OneMarked(flags: seq<PageFlag>, levels: seq<nat>, page: nat, level: nat, from: nat)
    requires |flags| == |levels| && page < |flags|
    ensures KeptButFor(flags, levels, flags[page := Allocated], levels[page := level], page, from, from)
  {
  }

  lemma OneMoreMarked(flags: seq<PageFlag>, levels: seq<nat>, flags': seq<PageFlag>, levels': seq<nat>,
                      page: nat, k: nat, from: nat)
    requires k < from && KeptButFor(flags, levels, flags', levels', page, k + 1, from) && page + Pow2(k) < |flags|
    ensures KeptButFor(flags, levels, flags'[page + Pow2(k) := Free], levels'[page + Pow2(k) := k], page, k, from)
  {
    hide Pow2;
  }

  /** `struct buddy_sys` and the fields of `struct page` it uses. */
  class BuddySystem {
    const freelist: array<seq<nat>>
    const nrFree: array<nat>
    const flag: array<PageFlag>
    const bplevel: array<nat>

    /** Well-formed free lists, counted, whose blocks are marked as free and of their level. */
    ghost predicate Valid()
      reads this, freelist, nrFree, flag, bplevel
    {
      && freelist.Length == MAX_ORDER + 1 && nrFree.Length == MAX_ORDER + 1 && flag.Length == bplevel.Length
      && nrFree != bplevel
      && WellFormed(freelist[..], flag.Length)
      && (forall k :: 0 <= k <= MAX_ORDER ==> nrFree[k] == |freelist[k]|)
      && AllMarked(freelist[..], flag[..], bplevel[..])
    }

    /** A system with no free block. */
    constructor (total: nat)
      ensures Valid() && flag.Length == total && forall p: nat :: !IsFree(freelist[..], p)
    {
      freelist := new seq<nat>[MAX_ORDER + 1](_ => []);
      nrFree := new nat[MAX_ORDER + 1](_ => 0);
      flag := new PageFlag[total](_ => Reserved);
      bplevel := new nat[total](_ => 0);
    }

    /** All of `Valid` while block `page`, of level `c` for the moment, is in nobody's list. */
    ghost predicate Holding(page: nat, c: nat)
      reads this, freelist, nrFree, flag, bplevel
    {
      Valid() && Addable(freelist[..], flag.Length, page, c)
    }

    /** The block is unlinked and marked. */
    method Unlink(from: nat, level: nat) returns (page: nat)
      requires Valid() && level <= from <= MAX_ORDER && freelist[from] != []
      modifies freelist, nrFree, flag, bplevel
      ensures Holding(page, from) && page == old(freelist[from][0]) && page < flag.Length
      ensures flag[..] == old(flag[..])[page := Allocated] && bplevel[..] == old(bplevel[..])[page := level]
      ensures freelist[..] == old(freelist[..])[from := old(freelist[from])[1..]]
      ensures forall p: nat :: IsFree(old(freelist[..]), p) <==> IsFree(freelist[..], p) || Inside(p, page, from)
    {
      Taken(freelist[..], flag.Length, from);
      ghost var lists := freelist[..];
      page := freelist[from][0];
      assert page in freelist[from];
      freelist[from] := freelist[from][1..];
      assert freelist[..] == lists[from := lists[from][1..]];
      bplevel[page] := level;
      flag[page] := Allocated;
      nrFree[from] := nrFree[from] - 1;
      assert forall l, c :: 0 <= l <= MAX_ORDER && c in freelist[l] ==> Apart(page, from, c, l);
    }

    /** The upper half of the held block goes to the list of the next lower level. */
    method GiveBack(page: nat, k: nat, size: nat)
      requires Holding(page, k + 1) && k < MAX_ORDER && size == Pow2(k)
      modifies freelist, nrFree, flag, bplevel
      ensures Holding(page, k) && freelist[..] == old(freelist[..])[k := [page + size] + old(freelist[k])]
      ensures page < page + size < flag.Length
      ensures flag[..] == old(flag[..])[page + size := Free] && bplevel[..] == old(bplevel[..])[page + size := k]
      ensures forall p: nat :: IsFree(freelist[..], p) <==> IsFree(old(freelist[..]), p) || Inside(p, page + size, k)
    {
      hide WellFormed, Addable, IsFree, Inside;
      Split(freelist[..], flag.Length, page, k);
      UpperIsNew(freelist[..], flag.Length, page, k);
      ghost var lists := freelist[..];
      var buddy := page + size;
      MarkedToo(lists, flag[..], bplevel[..], k, buddy);
      freelist[k] := [buddy] + freelist[k];
      assert freelist[..] == lists[k := [buddy] + lists[k]];
      nrFree[k] := nrFree[k] + 1;
      ghost var flags, levels := flag[..], bplevel[..];
      flag[buddy] := Free;
      bplevel[buddy] := k;
      assert flag[..] == flags[buddy := Free] && bplevel[..] == levels[buddy := k];
    }

    /** The splitting loop. */
    method TakeFrom(from: nat, level: nat) returns (page: nat)
      requires Valid() && level <= from <= MAX_ORDER && freelist[from] != []
      modifies freelist, nrFree, flag, bplevel
      ensures Holding(page, level) && page == old(freelist[from][0]) && page < flag.Length
      ensures flag[page] == Allocated && bplevel[page] == level
      ensures SplitDown(old(freelist[..]), freelist[..], level, from)
      ensures KeptButFor(old(flag[..]), old(bplevel[..]), flag[..], bplevel[..], page, level, from)
      ensures forall p: nat :: IsFree(old(freelist[..]), p) <==> IsFree(freelist[..], p) || Inside(p, page, level)
    {
      hide WellFormed, Addable, AllMarked, IsFree, KeptButFor, SplitDown;
      page := Unlink(from, level);
      SplitNone(old(freelist[..]), from);
      OneMarked(old(flag[..]), old(bplevel[..]), page, level, from);
      var clevel, size := from, Pow2(from);
      while clevel > level
        invariant level <= clevel <= from && size == Pow2(clevel)
        invariant Holding(page, clevel) && page < flag.Length && flag[page] == Allocated && bplevel[page] == level
        invariant SplitDown(old(freelist[..]), freelist[..], clevel, from)
        invariant KeptButFor(old(flag[..]), old(bplevel[..]), flag[..], bplevel[..], page, clevel, from)
        invariant forall p: nat :: IsFree(old(freelist[..]), p) <==> IsFree(freelist[..], p) || Inside(p, page, clevel)
      {
        clevel := clevel - 1;
        size := size / 2;
        PowStep(clevel);
        ghost var flags, levels := flag[..], bplevel[..];
        SplitOnce(old(freelist[..]), freelist[..], clevel, from);
        GiveBack(page, clevel, size);
        OneMoreMarked(old(flag[..]), old(bplevel[..]), flags, levels, page, clevel, from);
      }
    }

    /**
     * `__alloc_pages`: takes the first block of the least sufficient level that has one, and gives the upper halves
     * back.  The block is aligned, and it and the new free blocks partition what was free.
     */
    method AllocBlock(level: nat) returns (page: Option<nat>, ghost from: nat)
      requires Valid()
      modifies freelist, nrFree, flag, bplevel
      ensures Valid()
      ensures page == None <==> forall k :: level <= k <= MAX_ORDER ==> old(freelist[k]) == []
      ensures page == None ==> freelist[..] == old(freelist[..])
      ensures page.Some? ==>
        && level <= from <= MAX_ORDER && old(freelist[from]) != [] && page.value == old(freelist[from][0])
        && (forall k :: level <= k < from ==> old(freelist[k]) == [])
        && SplitDown(old(freelist[..]), freelist[..], level, from)
      ensures page.Some? ==>
        && Aligned(page.value, level) && page.value < flag.Length
        && flag[page.value] == Allocated && bplevel[page.value] == level
        && forall p: nat ::
             && (IsFree(old(freelist[..]), p) <==> IsFree(freelist[..], p) || Inside(p, page.value, level))
             && !(IsFree(freelist[..], p) && Inside(p, page.value, level))
      ensures page == None ==> flag[..] == old(flag[..]) && bplevel[..] == old(bplevel[..])
      ensures page.Some? ==> KeptButFor(old(flag[..]), old(bplevel[..]), flag[..], bplevel[..], page.value, level, from)
    {
      from := level;
      var clevel := level;
      while clevel <= MAX_ORDER
        invariant level <= clevel && (level <= MAX_ORDER ==> clevel <= MAX_ORDER + 1)
        invariant forall k :: level <= k < clevel && k <= MAX_ORDER ==> freelist[k] == []
      {
        if freelist[clevel] != [] {
          from := clevel;
          var b := TakeFrom(clevel, level);
          page := Some(b);
          HeldIsNotFree(b, level);
          return;
        }
        clevel := clevel + 1;
      }
      page := None;
    }

    lemma HeldIsNotFree(page: nat, c: nat)
      requires Holding(page, c)
      ensures forall p: nat :: !(IsFree(freelist[..], p) && Inside(p, page, c))
    {
    }

    /**
     * `alloc_pages`: a block of the least level that has `order` pages; nothing for a request of no pages.  A shift by
     * more than 31 is not defined, so the request is at most 2^31.
     */
    method AllocPages(order: nat) returns (page: Option<nat>, ghost level: nat, ghost from: nat)
      requires Valid() && order <= Pow2(31)
      modifies freelist, nrFree, flag, bplevel
      ensures Valid()
      ensures order == 0 ==> page == None
      ensures order > 0 ==> order <= Pow2(level) && (level == 0 || Pow2(level - 1) < order)
      ensures order > 0 ==> (page == None <==> forall k :: level <= k <= MAX_ORDER ==> old(freelist[k]) == [])
      ensures page == None ==>
        freelist[..] == old(freelist[..]) && flag[..] == old(flag[..]) && bplevel[..] == old(bplevel[..])
      ensures page.Some? ==>
        && order > 0 && Aligned(page.value, level) && page.value < flag.Length
        && flag[page.value] == Allocated && bplevel[page.value] == level
        && forall p: nat ::
             && (IsFree(old(freelist[..]), p) <==> IsFree(freelist[..], p) || Inside(p, page.value, level))
             && !(IsFree(freelist[..], p) && Inside(p, page.value, level))
      ensures page.Some? ==>
        && level <= from <= MAX_ORDER && old(freelist[from]) != [] && page.value == old(freelist[from][0])
        && (forall k :: level <= k < from ==> old(freelist[k]) == [])
        && SplitDown(old(freelist[..]), freelist[..], level, from)
        && KeptButFor(old(flag[..]), old(bplevel[..]), flag[..], bplevel[..], page.value, level, from)
    {
      level, from := 0, 0;
      page := None;
      if order > 0 {
        var l := LevelFor(order);
        level := l;
        page, from := AllocBlock(l);
      }
    }
  }

  /** The level loop of `alloc_pages`. */
  method LevelFor(order: nat) returns (level: nat)
    requires order <= Pow2(31)
    ensures order <= Pow2(level) && (level == 0 || Pow2(level - 1) < order)
  {
    level := 0;
    while Pow2(level) < order
      invariant level <= 31 && (level == 0 || Pow2(level - 1) < order)
      decreases 31 - level
    {
      level := level + 1;
    }
  }
}
