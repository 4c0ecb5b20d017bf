/**
 * The boot-time page allocator: first-fit search in a byte map (kernel/mm/mybootmm.c: find_pages, set_maps,
 * bootmm_alloc_pages).
 */
module BootMem {
  import opened Common

  const PAGE_FREE: u8 := 0x00
  const PAGE_USED: u8 := 0xff
  const PAGE_SIZE := 4096

  /** `x & ~m`, bit by bit. */
  function AndNot(x: nat, m: nat): (r: nat)
    ensures r <= x
  {
    if x == 0 then 0
    else 2 * AndNot(x / 2, m / 2) + if x % 2 == 1 && m % 2 == 0 then 1 else 0
  }

  /** Bit `k` of a number. */
  predicate BitOf(x: nat, k: nat) {
    if k == 0 then x % 2 == 1 else BitOf(x / 2, k - 1)
  }

  lemma {:induction false} AndNotBit(x: nat, m: nat, k: nat)
    ensures BitOf(AndNot(x, m), k) <==> BitOf(x, k) && !BitOf(m, k)
  {
    var r := AndNot(x / 2, m / 2);
    assert AndNot(x, m) / 2 == r && (AndNot(x, m) % 2 == 1 <==> x % 2 == 1 && m % 2 == 0) by {
      assert x == 0 ==> r == 0;
    }
    if k > 0 {
      AndNotBit(x / 2, m / 2, k - 1);
    }
  }

  /**
   * The first page looked at: `(s_pfn + (align_pfn - 1)) & (~align_pfn - 1)`, whose mask is the complement of
   * `align_pfn + 1`.
   */
  function Start(s: u32, align: u32): (r: u32)
    ensures r <= Wrap(s + align - 1)
  {
    AndNot(Wrap(s + align - 1), Wrap(align + 1))
  }

  /** What the mask does to the last page of the first aligned stretch, for any alignment: it clears its bits. */
  lemma StartBit(s: u32, align: u32, k: nat)
    requires 0 < align < 0xffff_ffff && s + align <= 0x1_0000_0000
    ensures BitOf(Start(s, align), k) <==> BitOf(s + align - 1, k) && !BitOf(align + 1, k)
  {
    AndNotBit(s + align - 1, align + 1, k);
    WrapBelow(s + align - 1);
    WrapBelow(align + 1);
    hide AndNot, BitOf, Wrap;
  }

  lemma WrapBelow(x: u32)
    ensures Wrap(x) == x
  {
  }

  /** With an alignment of one page the search may begin up to two pages early, never late. */
  lemma StartOfOne(s: u32)
    ensures Start(s, 1) == if s / 2 % 2 == 1 then s - 2 else s
  {
    assert Wrap(s) == s && Wrap(2) == 2;
    AndNotZero(s / 4);
    if s / 2 > 0 {
      assert AndNot(s / 2, 1) == 2 * AndNot(s / 4, 0);
    }
    assert AndNot(s, 2) == if s == 0 then 0 else 2 * AndNot(s / 2, 1) + s % 2;
  }

  lemma {:induction false} AndNotZero(x: nat)
    ensures AndNot(x, 0) == x
  {
    if x > 0 {
      AndNotZero(x / 2);
    }
  }

  // ---- the search ------------------------------------------------------------------------------------------

  /** A map that holds only the two values there are. */
  predicate Proper(marks: seq<u8>) {
    forall k :: 0 <= k < |marks| ==> marks[k] == PAGE_FREE || marks[k] == PAGE_USED
  }

  /** How the inner loop ends: enough pages, the limit reached, or a used page met. */
  datatype Scanned = Complete | Reached | Broken(at: nat)

  function Scan(pages: seq<u8>, temp: nat, cnt: nat, e: nat): (r: Scanned)
    requires e <= |pages|
    ensures r.Broken? ==> temp <= r.at < e && pages[r.at] == PAGE_USED && (pages[temp] != PAGE_USED ==> temp < r.at)
    decreases cnt
  {
    if cnt == 0 then Complete
    else if temp >= e then Reached
    else if pages[temp] == PAGE_USED then Broken(temp)
    else Scan(pages, temp + 1, cnt - 1, e)
  }

  /** The search from page `i` on. */
  function Find(pages: seq<u8>, cnt: nat, i: nat, e: nat, align: nat): Option<nat>
    requires e <= |pages|
    decreases e - i
  {
    if i >= e then None
    else if pages[i] == PAGE_USED then Find(pages, cnt, i + 1, e, align)
    else match Scan(pages, i, cnt, e)
      case Complete => Some(i)
      case Reached => None
      case Broken(at) => Find(pages, cnt, at + align, e, align)
  }

  /** `cnt` free pages in a row, from `i` on and below `e`. */
  ghost predicate FreeRun(pages: seq<u8>, i: nat, cnt: nat, e: nat) {
    i + cnt <= e <= |pages| && forall k :: i <= k < i + cnt ==> pages[k] != PAGE_USED
  }

  lemma {:induction false} ScanMeans(pages: seq<u8>, temp: nat, cnt: nat, e: nat)
    requires temp <= e <= |pages|
    ensures Scan(pages, temp, cnt, e) == Complete <==> FreeRun(pages, temp, cnt, e)
    ensures Scan(pages, temp, cnt, e) == Reached ==> e < temp + cnt
    decreases cnt
  {
    if cnt > 0 && temp < e && pages[temp] != PAGE_USED {
      ScanMeans(pages, temp + 1, cnt - 1, e);
    }
  }

  /** Whatever the alignment, what is found is a run of free pages. */
  lemma {:induction false} FindSound(pages: seq<u8>, cnt: nat, i: nat, e: nat, align: nat)
    requires e <= |pages|
    ensures var r := Find(pages, cnt, i, e, align);
      r.Some? ==> i <= r.value < e && pages[r.value] != PAGE_USED && FreeRun(pages, r.value, cnt, e)
    decreases e - i
  {
    if i >= e {
    } else if pages[i] == PAGE_USED {
      FindSound(pages, cnt, i + 1, e, align);
    } else {
      ScanMeans(pages, i, cnt, e);
      match Scan(pages, i, cnt, e)
      case Complete =>
      case Reached =>
      case Broken(at) => FindSound(pages, cnt, at + align, e, align);
    }
  }

  /** With an alignment of at most one page the search finds the first run there is, and fails only if there is none. */
  lemma {:induction false} FindFirst(pages: seq<u8>, cnt: nat, i: nat, e: nat, align: nat)
    requires e <= |pages| && align <= 1 && cnt > 0
    ensures var r := Find(pages, cnt, i, e, align);
      && (r.Some? ==> forall j :: i <= j < r.value ==> !FreeRun(pages, j, cnt, e))
      && (r == None <==> forall j :: i <= j ==> !FreeRun(pages, j, cnt, e))
    decreases e - i
  {
    if i >= e {
    } else if pages[i] == PAGE_USED {
      FindFirst(pages, cnt, i + 1, e, align);
      assert !FreeRun(pages, i, cnt, e);
    } else {
      ScanMeans(pages, i, cnt, e);
      match Scan(pages, i, cnt, e)
      case Complete =>
      case Reached =>
      case Broken(at) =>
        FindFirst(pages, cnt, at + align, e, align);
        BrokenBlocks(pages, i, cnt, e);
    }
  }

  /** No run of that length starts between `i` and the used page that the inner loop met, or at that page. */
  lemma BrokenBlocks(pages: seq<u8>, i: nat, cnt: nat, e: nat)
    requires i <= e <= |pages| && Scan(pages, i, cnt, e).Broken?
    ensures forall j :: i <= j <= Scan(pages, i, cnt, e).at ==> !FreeRun(pages, j, cnt, e)
  {
    var at := Scan(pages, i, cnt, e).at;
    BrokenNear(pages, i, cnt, e);
    forall j | i <= j <= at
      ensures !FreeRun(pages, j, cnt, e)
    {
      assert pages[at] == PAGE_USED && j <= at < j + cnt;
    }
  }

  lemma {:induction false} BrokenNear(pages: seq<u8>, i: nat, cnt: nat, e: nat)
    requires i <= e <= |pages| && Scan(pages, i, cnt, e).Broken?
    ensures Scan(pages, i, cnt, e).at < i + cnt
    decreases cnt
  {
    if pages[i] != PAGE_USED {
      BrokenNear(pages, i + 1, cnt - 1, e);
    }
  }

  /** The search misses no run, whatever the map, exactly when the alignment is at most one page. */
  lemma CompleteIff(align: nat)
    ensures (forall pages, cnt: nat, i: nat, e: nat ::
               e <= |pages| && cnt > 0 && Find(pages, cnt, i, e, align) == None ==>
               forall j :: i <= j ==> !FreeRun(pages, j, cnt, e))
            <==> align <= 1
  {
    if align <= 1 {
      forall pages, cnt: nat, i: nat, e: nat | e <= |pages| && cnt > 0 && Find(pages, cnt, i, e, align) == None
        ensures forall j :: i <= j ==> !FreeRun(pages, j, cnt, e)
      {
        FindFirst(pages, cnt, i, e, align);
      }
    } else {
      var pages := [PAGE_FREE, PAGE_USED, PAGE_FREE, PAGE_FREE];
      assert Scan(pages, 0, 2, 4) == Broken(1);
      assert Scan(pages, 3, 2, 4) == Reached;
      assert Find(pages, 2, 1 + align, 4, align) == None;
      assert Find(pages, 2, 0, 4, align) == None;
      assert FreeRun(pages, 2, 2, 4);
    }
  }

  /** Behind a used page that the inner loop met the search goes on `align` pages further. */
  lemma FindAfterUsed(free: nat, align: nat)
    requires 1 <= align && align + 1 <= free
    ensures var pages := [PAGE_FREE, PAGE_USED] + seq(free, _ => PAGE_FREE);
      Find(pages, 2, 0, free + 2, align) == Some(1 + align)
  {
    var pages := [PAGE_FREE, PAGE_USED] + seq(free, _ => PAGE_FREE);
    assert Scan(pages, 0, 2, free + 2) == Broken(1);
    ScanMeans(pages, 1 + align, 2, free + 2);
    assert FreeRun(pages, 1 + align, 2, free + 2);
  }

  /** What the search finds from an aligned page on is aligned, whatever the map, exactly when every page is. */
  lemma AlignedIff(align: nat)
    requires align > 0
    ensures (forall pages, cnt: nat, i: nat, e: nat ::
               e <= |pages| && cnt > 0 && i % align == 0 && Find(pages, cnt, i, e, align).Some? ==>
                 Find(pages, cnt, i, e, align).value % align == 0)
            <==> align == 1
  {
    if align > 1 {
      var pages := [PAGE_USED, PAGE_FREE];
      assert Scan(pages, 1, 1, 2) == Complete;
      assert Find(pages, 1, 0, 2, align) == Some(1);
    }
  }

  /** With an alignment of one page the whole search fails only if there is no run from the requested page on. */
  lemma OnePageComplete(pages: seq<u8>, cnt: nat, s: u32, e: nat)
    requires e <= |pages| && cnt > 0
    ensures Find(pages, cnt, Start(s, 1), e, 1) == None ==> forall j :: s <= j ==> !FreeRun(pages, j, cnt, e)
  {
    StartOfOne(s);
    FindFirst(pages, cnt, Start(s, 1), e, 1);
  }

  /** The map after `cnt` pages from `i` on were marked as used. */
  function Marked(pages: seq<u8>, i: nat, cnt: nat): (r: seq<u8>)
    requires i + cnt <= |pages|
    ensures |r| == |pages|
    ensures forall k :: 0 <= k < |pages| ==> r[k] == if i <= k < i + cnt then PAGE_USED else pages[k]
  {
    pages[..i] + seq(cnt, _ => PAGE_USED) + pages[i + cnt..]
  }

  /** The address of a page. */
  function Address(page: nat): (r: u32)
    ensures r % 4096 == 0 && r / 4096 == page % 0x10_0000
  {
    Wrap(page * PAGE_SIZE)
  }

  // ---- the allocator ---------------------------------------------------------------------------------------

  /** `struct bootmm` without its usage records. */
  class BootMap {
    const sMap: array<u8>
    const maxPfn: u32
    var lastAllocEnd: u32

    /** A map in use: only the two values, and page 0 belongs to the kernel. */
    ghost predicate Valid()
      reads this, sMap
    {
      && 0 < maxPfn == sMap.Length <= 0x10_0000
      && Proper(sMap[..]) && sMap[0] == PAGE_USED
      && lastAllocEnd < maxPfn
    }

    /** `init_bootmm` for `maxPfn` pages, of which the kernel has the first `kernelPages`. */
    constructor (maxPfn: u32, kernelPages: u32)
      requires 0 < kernelPages <= maxPfn <= 0x10_0000
      ensures Valid() && this.maxPfn == maxPfn && lastAllocEnd == kernelPages - 1 && fresh(sMap)
      ensures forall k :: 0 <= k < maxPfn ==> sMap[k] == if k < kernelPages then PAGE_USED else PAGE_FREE
    {
      this.maxPfn := maxPfn;
      lastAllocEnd := kernelPages - 1;
      sMap := new u8[maxPfn](_ => PAGE_FREE);
      new;
      for index := 0 to kernelPages
        modifies sMap
        invariant forall k :: 0 <= k < maxPfn ==> sMap[k] == if k < index then PAGE_USED else PAGE_FREE
      {
        sMap[index] := PAGE_USED;
      }
    }

    /** `set_maps` with PAGE_USED. */
    method SetMaps(sPfn: nat, cnt: nat)
      requires sPfn + cnt <= sMap.Length
      modifies sMap
      ensures sMap[..] == Marked(old(sMap[..]), sPfn, cnt)
    {
      ghost var was := sMap[..];
      var s, c := sPfn, cnt;
      while c > 0
        invariant 0 <= c && s + c == sPfn + cnt && sPfn <= s
        invariant |was| == sMap.Length && sMap[..] == Marked(was, sPfn, s - sPfn)
      {
        sMap[s] := PAGE_USED;
        c := c - 1;
        s := s + 1;
      }
    }

    /** The inner loop of `find_pages`: where it stops, and how many pages are still missing. */
    method ScanFrom(i: nat, pageCnt: nat, e: nat) returns (temp: nat, cnt: nat, reached: bool)
      requires Proper(sMap[..]) && i <= e <= sMap.Length
      ensures match Scan(sMap[..], i, pageCnt, e)
              case Complete => cnt == 0 && !reached && temp == i + pageCnt
              case Reached => reached
              case Broken(at) => cnt > 0 && !reached && temp == at
    {
      temp, cnt, reached := i, pageCnt, false;
      while cnt > 0
        invariant !reached && i <= temp && temp - i + cnt == pageCnt
        invariant Scan(sMap[..], i, pageCnt, e) == Scan(sMap[..], temp, cnt, e)
      {
        if temp >= e {
          reached := true;
          return;
        }
        if sMap[temp] == PAGE_USED {
          return;
        }
        temp := temp + 1;
        cnt := cnt - 1;
      }
    }

    /** The search loop of `find_pages`. */
    method Search(pageCnt: nat, from: nat, e: nat, align: nat) returns (found: Option<nat>)
      requires Proper(sMap[..]) && e <= sMap.Length
      ensures found == Find(sMap[..], pageCnt, from, e, align)
    {
      hide Scan;
      var i := from;
      while i < e
        invariant Find(sMap[..], pageCnt, i, e, align) == Find(sMap[..], pageCnt, from, e, align)
        decreases e - i
      {
        if sMap[i] == PAGE_USED {
          i := i + 1;
          continue;
        }
        var temp, cnt, reached := ScanFrom(i, pageCnt, e);
        if reached {
          return None;
        }
        if cnt == 0 {
          return Some(i);
        } else {
          i := temp + align;
        }
      }
      return None;
    }

    /** `find_pages`: the run that the search finds is marked, and its address returned; 0 if there is none. */
    method FindPages(pageCnt: nat, sPfn: u32, e: nat, align: u32) returns (address: u32)
      requires Valid() && e <= maxPfn && align <= 0x10_0000
      modifies `lastAllocEnd, sMap
      ensures Valid()
      ensures align == 1 && pageCnt > 0 && address == 0 ==>
        forall j :: sPfn <= j ==> !FreeRun(old(sMap[..]), j, pageCnt, e)
      ensures match Find(old(sMap[..]), pageCnt, Start(sPfn, align), e, align)
              case None => address == 0 && sMap[..] == old(sMap[..]) && lastAllocEnd == old(lastAllocEnd)
              case Some(i) =>
                && 0 < i < e && i + pageCnt <= e && address == Address(i) == i * PAGE_SIZE
                && sMap[..] == Marked(old(sMap[..]), i, pageCnt) && lastAllocEnd == i + pageCnt - 1
    {
      hide Find, Start;
      FindSound(sMap[..], pageCnt, Start(sPfn, align), e, align);
      if align == 1 && pageCnt > 0 {
        OnePageComplete(sMap[..], pageCnt, sPfn, e);
      }
      var found := Search(pageCnt, Start(sPfn, align), e, align);
      match found
      case None => return 0;
      case Some(i) =>
        lastAllocEnd := i + pageCnt - 1;
        SetMaps(i, pageCnt);
        return Address(i);
    }

    /**
     * `bootmm_alloc_pages`, but for the usage records: first the pages after the last allocation, then those before.
     * `align` and `size` are in bytes.
     */
    method AllocPages(size: u32, align: u32) returns (address: u32)
      requires Valid()
      modifies `lastAllocEnd, sMap
      ensures Valid()
      ensures var n, a := Wrap(size + 4095) / PAGE_SIZE, align / PAGE_SIZE;
        var first := Find(old(sMap[..]), n, Start(Add32(old(lastAllocEnd), 1), a), maxPfn, a);
        var second := Find(old(sMap[..]), n, Start(0, a), old(lastAllocEnd), a);
        var r := if first.Some? then first else second;
        match r
        case None => address == 0 && sMap[..] == old(sMap[..])
        case Some(i) => i + n <= maxPfn && address == i * PAGE_SIZE > 0 && sMap[..] == Marked(old(sMap[..]), i, n)
      ensures var n := Wrap(size + 4095) / PAGE_SIZE;
        align / PAGE_SIZE == 1 && n > 0 && address == 0 ==>
          && (forall j :: old(lastAllocEnd) < j ==> !FreeRun(old(sMap[..]), j, n, maxPfn))
          && (forall j :: 0 <= j ==> !FreeRun(old(sMap[..]), j, n, old(lastAllocEnd)))
    {
      hide Find, Start, FreeRun, Marked;
      var n, a := Wrap(size + 4095) / PAGE_SIZE, align / PAGE_SIZE;
      assert Add32(lastAllocEnd, 1) == lastAllocEnd + 1;
      address := FindPages(n, Add32(lastAllocEnd, 1), maxPfn, a);
      if address != 0 {
        return;
      }
      address := FindPages(n, 0, lastAllocEnd, a);
    }
  }
}
