/**
 * The two-level page table as a flat map from virtual pages to entries
 * (kernel/pc/page.c: do_one_mapping, do_mapping; include/zjunix/page.h).
 */
module PageTable {
  import opened Common

  const PAGE_SIZE := 4096
  /** Entries of a table of either level; INDEX_MASK is one less. */
  const ENTRIES := 1024
  /** Virtual pages of a 32-bit address space. */
  const PAGES := 0x10_0000

  /** `x & PAGE_MASK`. */
  function PageBase(x: u32): (r: u32)
    ensures r % PAGE_SIZE == 0 && r <= x < r + PAGE_SIZE
  {
    x / PAGE_SIZE * PAGE_SIZE
  }

  /** The entry for physical address `pa`; on a masked address, `|=` with attribute bits adds them. */
  function Entry(pa: u32, attr: u32): (r: u32)
    requires attr < PAGE_SIZE
    ensures PageBase(r) == PageBase(pa) && r % PAGE_SIZE == attr
  {
    PageBase(pa) + attr
  }

  function PdeIndex(va: u32): (r: nat)
    ensures r < ENTRIES
  {
    va / 0x40_0000
  }

  function PteIndex(va: u32): (r: nat)
    ensures r < ENTRIES
  {
    va / PAGE_SIZE % ENTRIES
  }

  /** The virtual page of an address. */
  function Vpn(va: u32): (r: nat)
    ensures r < PAGES
  {
    va / PAGE_SIZE
  }

  /** Directory index, table index and offset are the digits of an address. */
  lemma AddressParts(va: u32)
    ensures Vpn(va) == PdeIndex(va) * 1024 + PteIndex(va)
    ensures Vpn(va) * 4096 <= va < Vpn(va) * 4096 + 4096
  {
  }

  /** The address `i` pages further on; addresses wrap. */
  function Later(a: u32, i: nat): u32 {
    Add32(a, i * PAGE_SIZE)
  }

  // ---- the flat map ----------------------------------------------------------------------------------------

  /** The flat map after `n` successive pages were mapped. */
  function MapRange(flat: seq<u32>, va: u32, n: nat, pa: u32, attr: u32): (r: seq<u32>)
    requires |flat| == PAGES && attr < PAGE_SIZE
    ensures |r| == PAGES
  {
    if n == 0 then flat
    else MapRange(flat, va, n - 1, pa, attr)[Vpn(Later(va, n - 1)) := Entry(Later(pa, n - 1), attr)]
  }

  /** Pages `i` steps apart, with `i` below the size of the address space, are different. */
  lemma VpnsDiffer(va: u32, i: nat, j: nat)
    requires i < j < PAGES
    ensures Vpn(Later(va, i)) != Vpn(Later(va, j))
  {
    VpnLater(va, i);
    VpnLater(va, j);
  }

  lemma VpnLater(va: u32, i: nat)
    requires i < PAGES
    ensures Vpn(Later(va, i)) == (Vpn(va) + i) % PAGES
  {
  }

  /** What mapping a range means page by page: each page of the range maps to its own frame, and no other changes. */
  lemma {:induction false} MapRangeAt(flat: seq<u32>, va: u32, n: nat, pa: u32, attr: u32)
    requires |flat| == PAGES && attr < PAGE_SIZE && n <= PAGES
    ensures forall i :: 0 <= i < n ==>
      MapRange(flat, va, n, pa, attr)[Vpn(Later(va, i))] == Entry(Later(pa, i), attr)
    ensures forall v :: 0 <= v < PAGES && (forall i :: 0 <= i < n ==> Vpn(Later(va, i)) != v) ==>
      MapRange(flat, va, n, pa, attr)[v] == flat[v]
  {
    if n > 0 {
      MapRangeAt(flat, va, n - 1, pa, attr);
      forall i | 0 <= i < n - 1
        ensures Vpn(Later(va, i)) != Vpn(Later(va, n - 1))
      {
        VpnsDiffer(va, i, n - 1);
      }
    }
  }

  /** The directory after `n` pages were mapped: the entries of these pages have the attributes, the others are kept. */
  ghost predicate Touched(before: seq<u32>, after: seq<u32>, va: u32, n: nat, attr: u32) {
    && |before| == |after| == ENTRIES
    && (forall i :: 0 <= i < n ==> after[PdeIndex(Later(va, i))] % PAGE_SIZE == attr)
    && forall d :: 0 <= d < ENTRIES && (forall i :: 0 <= i < n ==> PdeIndex(Later(va, i)) != d) ==>
         after[d] == before[d]
  }

  // ---- the two levels --------------------------------------------------------------------------------------

  class AddressSpace {
    const pgd: array<u32>
    /** The second-level tables in memory, by their addresses. */
    var tables: map<u32, array<u32>>
    /** What `kmalloc` is going to return: 0, or the address of a page that is in use for nothing else. */
    var supply: seq<u32>

    /** An address space with an empty directory. */
    constructor (supply: seq<u32>)
      requires forall k :: 0 <= k < |supply| ==> supply[k] % PAGE_SIZE == 0
      requires forall j, k :: 0 <= j < k < |supply| && supply[j] != 0 ==> supply[j] != supply[k]
      ensures Valid() && Shows(seq(PAGES, _ => 0)) && fresh(pgd) && tables == map[]
    {
      pgd := new u32[ENTRIES](_ => 0);
      tables := map[];
      this.supply := supply;
    }

    /** Second-level tables are pages of their own, and no two directory entries share one. */
    ghost predicate Valid()
      reads this, pgd
    {
      && pgd.Length == ENTRIES
      && (forall b :: b in tables ==> b != 0 && b % PAGE_SIZE == 0 && tables[b].Length == ENTRIES && tables[b] != pgd)
      && (forall b, c :: b in tables && c in tables && b != c ==> tables[b] != tables[c])
      && (forall i :: 0 <= i < ENTRIES ==> PageBase(pgd[i]) == 0 || PageBase(pgd[i]) in tables)
      && (forall i, j :: 0 <= i < j < ENTRIES && PageBase(pgd[i]) != 0 ==> PageBase(pgd[i]) != PageBase(pgd[j]))
      && (forall k :: 0 <= k < |supply| ==> supply[k] % PAGE_SIZE == 0 && supply[k] !in tables)
      && forall j, k :: 0 <= j < k < |supply| && supply[j] != 0 ==> supply[j] != supply[k]
    }

    /** What the hardware finds for virtual page `v`: its entry, or 0 if there is no table. */
    ghost function At(v: nat): u32
      requires Valid() && v < PAGES
      reads this, pgd, tables.Values
    {
      var base := PageBase(pgd[v / ENTRIES]);
      if base == 0 then 0 else tables[base][v % ENTRIES]
    }

    /** The two levels together are the flat map. */
    ghost predicate Shows(flat: seq<u32>)
      reads this, pgd, tables.Values
    {
      Valid() && |flat| == PAGES && forall v :: 0 <= v < PAGES ==> At(v) == flat[v]
    }

    /** `kmalloc(PAGE_SIZE)` and `kernel_memset`: a zeroed page, or 0. */
    method NewTable() returns (pde: u32)
      requires Valid()
      modifies `tables, `supply
      ensures pde == if old(supply) == [] then 0 else old(supply)[0]
      ensures supply == if old(supply) == [] then [] else old(supply)[1..]
      ensures pde == 0 ==> Valid() && tables == old(tables)
      ensures pde != 0 ==>
        && Valid() && pde !in old(tables) && pde in tables && tables == old(tables)[pde := tables[pde]]
        && fresh(tables[pde]) && pde % PAGE_SIZE == 0 && forall i :: 0 <= i < ENTRIES ==> tables[pde][i] == 0
    {
      if supply == [] {
        return 0;
      }
      pde := supply[0];
      supply := supply[1..];
      if pde != 0 {
        var table := new u32[ENTRIES](_ => 0);
        tables := tables[pde := table];
      }
    }

    /** The directory part of `do_one_mapping`: the table of `va` is found or made; no page's entry changes. */
    method TableFor(va: u32, attr: u32, ghost flat: seq<u32>) returns (pde: u32)
      requires Shows(flat) && attr < PAGE_SIZE
      modifies this, pgd
      ensures Shows(flat) && fresh(tables.Values - old(tables.Values))
      ensures pde == 0 <==> old(PageBase(pgd[PdeIndex(va)]) == 0 && (supply == [] || supply[0] == 0))
      ensures supply == if old(PageBase(pgd[PdeIndex(va)])) != 0 || old(supply) == [] then old(supply)
                        else old(supply)[1..]
      ensures pde == 0 ==> pgd[..] == old(pgd[..])
      ensures pde != 0 ==>
        && pde in tables && pgd[..] == old(pgd[..])[PdeIndex(va) := Entry(pde, attr)] && PageBase(pde) == pde
        && pde == if old(PageBase(pgd[PdeIndex(va)])) != 0 then old(PageBase(pgd[PdeIndex(va)])) else old(supply)[0]
    {
      var pdeIndex := PdeIndex(va);
      pde := PageBase(pgd[pdeIndex]);
      if pde == 0 {
        pde := NewTable();
        if pde == 0 {
          return;
        }
        SetDir(pdeIndex, Entry(pde, attr), flat);
      } else {
        SetDir(pdeIndex, Entry(pgd[pdeIndex], attr), flat);
      }
    }

    /** A directory entry that names the same table as before, or a zeroed one in place of none, changes no page. */
    method SetDir(i: nat, e: u32, ghost flat: seq<u32>)
      requires Shows(flat) && i < ENTRIES && PageBase(e) in tables
      requires || PageBase(pgd[i]) == PageBase(e)
               || (PageBase(pgd[i]) == 0 && (forall k :: 0 <= k < ENTRIES ==> tables[PageBase(e)][k] == 0)
                   && forall j :: 0 <= j < ENTRIES ==> PageBase(pgd[j]) != PageBase(e))
      modifies pgd
      ensures Shows(flat) && pgd[..] == old(pgd[..])[i := e]
    {
      hide PageBase;
      ghost var was := pgd[..];
      pgd[i] := e;
      forall v | 0 <= v < PAGES
        ensures At(v) == flat[v]
      {
        assert old(At(v)) == flat[v];
        assert v / ENTRIES != i ==> pgd[v / ENTRIES] == was[v / ENTRIES];
      }
    }

    /** One entry of a table in use. */
    method SetPage(va: u32, pde: u32, e: u32, ghost flat: seq<u32>)
      requires Shows(flat) && pde != 0 && PageBase(pgd[PdeIndex(va)]) == pde && pde in tables
      modifies tables[pde]
      ensures Shows(flat[Vpn(va) := e])
    {
      hide PageBase;
      var t := tables[pde];
      t[PteIndex(va)] := e;
      forall v | 0 <= v < PAGES
        ensures At(v) == flat[Vpn(va) := e][v]
      {
        assert old(At(v)) == flat[v];
      }
    }

    /** `do_one_mapping`: fails, without effect on any page, exactly when a table is missing and cannot be had. */
    method MapOne(va: u32, pa: u32, attr: u32, ghost flat: seq<u32>) returns (err: bool)
      requires Shows(flat) && attr < PAGE_SIZE
      modifies this, pgd, tables.Values
      ensures fresh(tables.Values - old(tables.Values))
      ensures err <==> old(PageBase(pgd[PdeIndex(va)]) == 0 && (supply == [] || supply[0] == 0))
      ensures supply == if old(PageBase(pgd[PdeIndex(va)])) != 0 || old(supply) == [] then old(supply)
                        else old(supply)[1..]
      ensures err ==> Shows(flat) && pgd[..] == old(pgd[..])
      ensures !err ==>
        && PageBase(pgd[PdeIndex(va)]) != 0
        && Shows(flat[Vpn(va) := Entry(pa, attr)])
        && pgd[PdeIndex(va)] % PAGE_SIZE == attr
        && forall i :: 0 <= i < ENTRIES && i != PdeIndex(va) ==> pgd[i] == old(pgd[i])
    {
      var pde := TableFor(va, attr, flat);
      if pde == 0 {
        return true;
      }
      SetPage(va, pde, Entry(pa, attr), flat);
      return false;
    }

    /**
     * `do_mapping`: on success all `npage` pages are mapped in turn; on failure the pages before the one that failed
     * are, and that one lacked a table that could not be had: `made` tables were, and then there was no more memory.
     * Directory entries of other pages stay as they were.
     */
    method Map(va: u32, npage: u32, pa: u32, attr: u32, ghost flat: seq<u32>)
      returns (err: bool, ghost done: nat, ghost made: nat)
      requires Shows(flat) && attr < PAGE_SIZE
      modifies this, pgd, tables.Values
      ensures fresh(tables.Values - old(tables.Values))
      ensures Shows(MapRange(flat, va, done, pa, attr)) && done <= npage
      ensures !err <==> done == npage
      ensures made <= |old(supply)| && forall k :: 0 <= k < made ==> old(supply)[k] != 0
      ensures !err ==> supply == old(supply)[made..]
      ensures err ==>
        PageBase(pgd[PdeIndex(Later(va, done))]) == 0 && (made == |old(supply)| || old(supply)[made] == 0)
      ensures Touched(old(pgd[..]), pgd[..], va, done, attr)
    {
      hide PageBase, PdeIndex, Later, Vpn, Entry, Add32, Touched, AddressSpace.At;
      LaterNone(va);
      LaterNone(pa);
      NoneTouched(pgd[..], va, attr);
      var v, p := va, pa;
      done, made := 0, 0;
      var i := 0;
      while i < npage
        invariant done == i <= npage && v == Later(va, i) && p == Later(pa, i)
        invariant Shows(MapRange(flat, va, i, pa, attr))
        invariant made <= |old(supply)| && supply == old(supply)[made..]
        invariant forall k :: 0 <= k < made ==> old(supply)[k] != 0
        invariant Touched(old(pgd[..]), pgd[..], va, i, attr)
        invariant fresh(tables.Values - old(tables.Values))
      {
        ghost var left, dir := |supply|, pgd[..];
        var res := MapOne(v, p, attr, MapRange(flat, va, i, pa, attr));
        if res {
          return true, i, made;
        }
        made := made + (left - |supply|);
        TouchedNext(old(pgd[..]), dir, pgd[..], va, i, attr);
        LaterNext(va, i);
        LaterNext(pa, i);
        v := Add32(v, PAGE_SIZE);
        p := Add32(p, PAGE_SIZE);
        i := i + 1;
        done := i;
      }
      return false, npage, made;
    }
  }

  lemma NoneTouched(dir: seq<u32>, va: u32, attr: u32)
    requires |dir| == ENTRIES
    ensures Touched(dir, dir, va, 0, attr)
  {
  }

  lemma TouchedNext(before: seq<u32>, dir: seq<u32>, after: seq<u32>, va: u32, i: nat, attr: u32)
    requires Touched(before, dir, va, i, attr) && |after| == ENTRIES
    requires after[PdeIndex(Later(va, i))] % PAGE_SIZE == attr
    requires forall d :: 0 <= d < ENTRIES && d != PdeIndex(Later(va, i)) ==> after[d] == dir[d]
    ensures Touched(before, after, va, i + 1, attr)
  {
    hide PdeIndex, Later;
  }

  lemma LaterNone(a: u32)
    ensures Later(a, 0) == a
  {
  }

  lemma LaterNext(a: u32, i: nat)
    ensures Add32(Later(a, i), PAGE_SIZE) == Later(a, i + 1)
  {
  }
}
