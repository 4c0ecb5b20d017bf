/**
 * The page cache: hash buckets and an LRU list over the same pages, with write-back on eviction
 * (kernel/vfs/vfscache.c: cache_init, cache_is_full, pcache_look_up, pcache_add, pcache_del, __intHash;
 * kernel/vfs/read_write.c: general_find_page; kernel/vfs/fat32.c: fat32_readpage, fat32_writepage).
 */
module PageCache {
  import opened Common

  datatype PageState = Invalid | Intact | Dirty

  /** The contents of one sector. */
  type Sector = seq<u8>

  /** `struct vfs_page`; `host` identifies the inode that owns the page. */
  class Page {
    const location: u32
    const host: nat
    var state: PageState
    var data: seq<Sector>

    constructor (location: u32, host: nat)
      ensures this.location == location && this.host == host && state == Invalid
    {
      this.location := location;
      this.host := host;
      state := Invalid;
      data := [];
    }
  }

  /** Dropping a page keeps the others in order. */
  lemma {:induction false} WithoutKeepsOrder(q: seq<Page>, p: Page, stamp: map<Page, nat>)
    requires Sorted(q, stamp)
    ensures Sorted(Without(q, p), stamp)
  {
    if q != [] {
      var rest := q[1..];
      SortedTail(q, stamp);
      WithoutKeepsOrder(rest, p, stamp);
      if q[0] != p {
        SortedCons(q[0], Without(rest, p), stamp);
      }
    }
  }

  lemma SortedTail(q: seq<Page>, stamp: map<Page, nat>)
    requires Sorted(q, stamp) && q != []
    ensures Sorted(q[1..], stamp) && q[0] in stamp && forall x :: x in q[1..] ==> stamp[q[0]] < stamp[x]
  {
    assert forall i :: 0 <= i < |q| - 1 ==> q[1..][i] == q[i + 1];
  }

  lemma SortedCons(p: Page, q: seq<Page>, stamp: map<Page, nat>)
    requires Sorted(q, stamp) && p in stamp && forall x :: x in q ==> stamp[p] < stamp[x]
    ensures Sorted([p] + q, stamp)
  {
  }

  lemma WithoutSorted(q: seq<Page>, p: Page, stamp: map<Page, nat>)
    requires Sorted(q, stamp)
    ensures Sorted(Without(q, p), stamp)
    ensures p in q ==> |Without(q, p)| == |q| - 1
  {
    WithoutKeepsOrder(q, p, stamp);
    assert Distinct(q);
    if p in q {
      WithoutLength(q, p);
    }
  }

  /** Pages in the order of their last use; so each occurs once. */
  ghost predicate Sorted(q: seq<Page>, stamp: map<Page, nat>) {
    && (forall p :: p in q ==> p in stamp)
    && forall i, j :: 0 <= i < j < |q| ==> stamp[q[i]] < stamp[q[j]]
  }

  /** A page used now goes last. */
  lemma SortedAppend(q: seq<Page>, p: Page, stamp: map<Page, nat>, clock: nat)
    requires Sorted(q, stamp) && p !in q && forall x :: x in q ==> stamp[x] < clock
    ensures Sorted(q + [p], stamp[p := clock])
    ensures forall x :: x in q + [p] <==> x in q || x == p
  {
  }

  // ---- clusters on the disk --------------------------------------------------------------------------------

  /** Where the data clusters lie: first sector, sectors per cluster, number of clusters. */
  datatype Geometry = Geometry(start: u32, spc: u32, clusters: u32) {
    /** The data region is not empty and fits in 32-bit sector numbers. */
    predicate Fits(sectors: nat) {
      spc > 0 && start + clusters * spc <= sectors <= 0x1_0000_0000
    }

    /** Clusters are numbered from 2. */
    predicate Has(location: u32) {
      2 <= location < clusters + 2
    }

    /** The first sector of a cluster, in unsigned arithmetic. */
    function Base(location: u32): u32 {
      Wrap(start + (location - 2) * spc)
    }

    /** On a disk that is large enough nothing wraps. */
    lemma BaseInside(sectors: nat, location: u32)
      requires Fits(sectors) && Has(location)
      ensures Base(location) == start + (location - 2) * spc && start <= Base(location) <= sectors - spc
    {
      hide Wrap;
      MulStep(location - 2, clusters, spc);
      WrapSmall(start + (location - 2) * spc);
    }

    /** Different clusters have no sector in common. */
    lemma BasesApart(sectors: nat, x: u32, y: u32)
      requires Fits(sectors) && Has(x) && Has(y) && x != y
      ensures Base(x) + spc <= Base(y) || Base(y) + spc <= Base(x)
    {
      BaseInside(sectors, x);
      BaseInside(sectors, y);
      hide Base, Fits;
      if x < y {
        MulStep(x - 2, y - 2, spc);
      } else {
        MulStep(y - 2, x - 2, spc);
      }
    }
  }

  lemma WrapSmall(x: int)
    requires 0 <= x < 0x1_0000_0000
    ensures Wrap(x) == x
  {
  }

  lemma MulStep(k: nat, n: nat, c: nat)
    requires k < n
    ensures 0 <= k * c && k * c + c <= n * c
  {
    assert (n - k - 1) * c >= 0;
    assert n * c == k * c + c + (n - k - 1) * c;
  }

  /** The disk after `data` was written from sector `base` on. */
  function Written(disk: seq<Sector>, base: nat, data: seq<Sector>): (r: seq<Sector>)
    requires base + |data| <= |disk|
    ensures |r| == |disk|
  {
    disk[..base] + data + disk[base + |data|..]
  }

  /** A cluster as it is on the disk. */
  function ClusterOf(disk: seq<Sector>, g: Geometry, location: u32): (r: seq<Sector>)
    requires g.Fits(|disk|) && g.Has(location)
    ensures |r| == g.spc
  {
    g.BaseInside(|disk|, location);
    disk[g.Base(location)..g.Base(location) + g.spc]
  }

  /** The disk after a cluster was written. */
  function Stored(disk: seq<Sector>, g: Geometry, location: u32, data: seq<Sector>): (r: seq<Sector>)
    requires g.Fits(|disk|) && g.Has(location) && |data| == g.spc
    ensures |r| == |disk|
  {
    g.BaseInside(|disk|, location);
    Written(disk, g.Base(location), data)
  }

  /** Writing one cluster changes that cluster only. */
  lemma ClusterStored(disk: seq<Sector>, g: Geometry, x: u32, data: seq<Sector>, y: u32)
    requires g.Fits(|disk|) && g.Has(x) && g.Has(y) && |data| == g.spc
    ensures ClusterOf(Stored(disk, g, x, data), g, y) == if x == y then data else ClusterOf(disk, g, y)
  {
    g.BaseInside(|disk|, x);
    g.BaseInside(|disk|, y);
    if x != y {
      g.BasesApart(|disk|, x, y);
    }
    WrittenRun(disk, g.Base(x), data, g.Base(y));
  }

  /** A run of sectors after another one was written, or that one itself. */
  lemma WrittenRun(disk: seq<Sector>, a: nat, data: seq<Sector>, b: nat)
    requires a + |data| <= |disk| && b + |data| <= |disk|
    requires a == b || a + |data| <= b || b + |data| <= a
    ensures Written(disk, a, data)[b..b + |data|] == if a == b then data else disk[b..b + |data|]
  {
    var after := Written(disk, a, data);
    forall i | 0 <= i < |data|
      ensures after[b + i] == if a == b then data[i] else disk[b + i]
    {
    }
  }

  /** `struct cache` for pages, with the disk behind it. */
  class Cache {
    const geometry: Geometry
    const disk: array<Sector>
    const tableSize: nat
    const capacity: nat
    const hashtable: array<seq<Page>>
    var lru: seq<Page>
    var size: nat
    /** When each page was last hit or inserted. */
    ghost var stamp: map<Page, nat>
    ghost var clock: nat

    /** `cache_init`. */
    constructor (geometry: Geometry, disk: array<Sector>, tableSize: nat, capacity: nat)
      requires geometry.Fits(disk.Length) && tableSize > 0 && capacity > 0
      ensures Valid() && lru == [] && this.disk == disk && this.geometry == geometry && fresh(hashtable)
    {
      this.geometry, this.disk, this.tableSize, this.capacity := geometry, disk, tableSize, capacity;
      hashtable := new seq<Page>[tableSize](_ => []);
      lru, size := [], 0;
      stamp, clock := map[], 0;
    }

    /** Buckets and LRU list hold the same pages, each once, in the bucket of its location, oldest use first. */
    ghost predicate Wired()
      reads this, hashtable
    {
      && hashtable.Length == tableSize && tableSize > 0 && capacity > 0
      && size == |lru| && size <= capacity
      && Sorted(lru, stamp) && (forall p :: p in lru ==> stamp[p] < clock)
      && (forall b :: 0 <= b < tableSize ==> Distinct(hashtable[b]))
      && (forall b, p :: 0 <= b < tableSize && p in hashtable[b] ==> p in lru && p.location % tableSize == b)
      && forall p :: p in lru ==> p in hashtable[p.location % tableSize]
    }

    /** What page `p` must satisfy to be in the cache: clean data is what the disk holds. */
    ghost predicate Sound(p: Page)
      requires geometry.Fits(disk.Length)
      reads disk, p
    {
      && geometry.Has(p.location)
      && (p.state != Invalid ==> |p.data| == geometry.spc)
      && (p.state == Intact ==> p.data == ClusterOf(disk[..], geometry, p.location))
    }

    ghost predicate Valid()
      reads this, hashtable, disk, lru
    {
      && Wired() && geometry.Fits(disk.Length)
      && (forall p :: p in lru ==> Sound(p))
      && forall p, q ::
           p in lru && q in lru && p.state != Invalid && q.state != Invalid && p.location == q.location ==> p == q
    }

    /** The page that stands for a cluster. */
    predicate Holds(p: Page, location: u32)
      reads p
    {
      p.state != Invalid && p.location == location
    }

    /** A cluster as the kernel sees it: the cached page if there is a valid one, else what is on the disk. */
    ghost function View(location: u32): seq<Sector>
      requires geometry.Fits(disk.Length) && geometry.Has(location)
      reads this, disk, lru
    {
      if exists p :: p in lru && Holds(p, location) then
        var p :| p in lru && Holds(p, location);
        p.data
      else ClusterOf(disk[..], geometry, location)
    }

    /** `d` is what the valid page at the cluster holds, or the disk if there is none. */
    ghost predicate Shows(location: u32, d: seq<Sector>)
      requires geometry.Fits(disk.Length) && geometry.Has(location)
      reads this, disk, lru
    {
      && (forall p :: p in lru && Holds(p, location) ==> p.data == d)
      && ((forall p :: p in lru ==> !Holds(p, location)) ==> ClusterOf(disk[..], geometry, location) == d)
    }

    lemma ShowsView()
      requires Valid()
      ensures forall l, d :: geometry.Has(l) ==> (Shows(l, d) <==> View(l) == d)
    {
    }

    lemma ViewCached(p: Page)
      requires Valid() && p in lru && p.state != Invalid
      ensures View(p.location) == p.data
    {
      assert Holds(p, p.location);
    }

    /** `pcache_look_up`: a hit moves to the end of the LRU list; no cluster looks any different. */
    method LookUp(location: u32, host: nat) returns (page: Page?)
      requires Valid()
      modifies `lru, `stamp, `clock
      ensures Valid()
      ensures page != null ==>
        && page in old(lru) && Holds(page, location) && page.host == host
        && lru == Without<Page>(old(lru), page) + [page] && stamp == old(stamp)[page := old(clock)]
      ensures page == null ==>
        lru == old(lru) && stamp == old(stamp) && forall p :: p in lru && Holds(p, location) ==> p.host != host
      ensures forall l :: geometry.Has(l) ==> View(l) == old(View(l))
    {
      hide View, ClusterOf, Without;
      var head := hashtable[location % tableSize];
      for i := 0 to |head|
        invariant forall j :: 0 <= j < i ==> !(Holds(head[j], location) && head[j].host == host)
      {
        var p := head[i];
        if p.location == location && p.state != Invalid && p.host == host {
          MoveToTail(p);
          return p;
        }
      }
      return null;
    }

    /** `list_move_tail` on the LRU list. */
    method MoveToTail(p: Page)
      requires Valid() && p in lru
      modifies `lru, `stamp, `clock
      ensures Valid() && lru == Without(old(lru), p) + [p] && stamp == old(stamp)[p := old(clock)]
      ensures forall l :: geometry.Has(l) ==> View(l) == old(View(l))
    {
      hide Cache.Sound, Without;
      WithoutSorted(lru, p, stamp);
      SortedAppend(Without(lru, p), p, stamp, clock);
      lru := Without(lru, p) + [p];
      stamp := stamp[p := clock];
      clock := clock + 1;
    }

    /** `write_block`. */
    method WriteBlock(base: nat, data: seq<Sector>)
      requires base + |data| <= disk.Length
      modifies disk
      ensures disk[..] == Written(old(disk[..]), base, data)
    {
      ghost var was := disk[..];
      for i := 0 to |data|
        invariant disk[..] == Written(was, base, data[..i])
      {
        disk[base + i] := data[i];
        assert disk[..] == Written(was, base, data[..i + 1]);
      }
      assert data[..|data|] == data;
    }

    /**
     * `fat32_writepage`: a clean page needs no writing, an invalid one cannot be written, a dirty one is written to its
     * own sectors and is clean then.
     */
    method WritePage(p: Page) returns (err: bool)
      requires geometry.Fits(disk.Length) && Sound(p)
      modifies disk, p`state
      ensures err <==> old(p.state) == Invalid
      ensures p.state == (if old(p.state) == Dirty then Intact else old(p.state)) && Sound(p)
      ensures disk[..] ==
              if old(p.state) == Dirty then Stored(old(disk[..]), geometry, p.location, p.data) else old(disk[..])
    {
      if p.state == Intact {
        return false;
      }
      if p.state == Invalid {
        return true;
      }
      p.state := Intact;
      geometry.BaseInside(disk.Length, p.location);
      ghost var was := disk[..];
      WriteBlock(geometry.Base(p.location), p.data);
      ClusterStored(was, geometry, p.location, p.data, p.location);
      return false;
    }

    /** `pcache_del`: a valid page reaches its sectors before it leaves; no cluster looks any different. */
    method Del(p: Page) returns (err: bool)
      requires Valid() && p in lru
      modifies `lru, `size, hashtable, disk, p`state
      ensures Valid() && !err && lru == Without(old(lru), p) && size == old(size) - 1
      ensures old(p.state) == Invalid ==> disk[..] == old(disk[..])
      ensures forall l :: geometry.Has(l) ==> View(l) == old(View(l))
    {
      err := WriteBack(p);
      if err {
        return;
      }
      Unhash(p);
    }

    /**
     * How `fat32_deleteinode` gets rid of a page: it is declared invalid first, so nothing is written, and its cluster
     * shows the disk again.
     */
    method Discard(p: Page) returns (err: bool)
      requires Valid() && p in lru
      modifies `lru, `size, hashtable, disk, p`state
      ensures Valid() && !err && lru == Without(old(lru), p) && disk[..] == old(disk[..])
      ensures old(p.state) != Invalid ==> View(p.location) == ClusterOf(disk[..], geometry, p.location)
      ensures forall l :: geometry.Has(l) && l != p.location ==> View(l) == old(View(l))
    {
      hide Wired, View, ClusterOf, Without;
      Forget(p);
      ghost var was := disk[..];
      err := Del(p);
    }

    /** A page that is declared invalid no longer stands for its cluster. */
    method Forget(p: Page)
      requires Valid() && p in lru
      modifies p`state
      ensures Valid() && p.state == Invalid
      ensures old(p.state) != Invalid ==> View(p.location) == ClusterOf(disk[..], geometry, p.location)
      ensures forall l :: geometry.Has(l) && l != p.location ==> View(l) == old(View(l))
    {
      hide Wired, View, ClusterOf;
      ShowsView();
      p.state := Invalid;
      forall l | geometry.Has(l) && l != p.location
        ensures Shows(l, old(View(l)))
      {
        assert old(Shows(l, View(l)));
      }
      if old(p.state) != Invalid {
        assert forall q :: q in lru ==> !Holds(q, p.location);
        assert Shows(p.location, ClusterOf(disk[..], geometry, p.location));
      }
      ShowsView();
    }

    /** The writing part: it changes no cluster's looks and nothing about the lists. */
    method WriteBack(p: Page) returns (err: bool)
      requires Valid() && p in lru
      modifies disk, p`state
      ensures Valid() && !err && p.state != Dirty
      ensures old(p.state) == Invalid ==> disk[..] == old(disk[..])
      ensures forall l :: geometry.Has(l) ==> View(l) == old(View(l))
    {
      hide Wired, View, ClusterOf, Stored;
      ShowsView();
      if p.state != Invalid {
        ghost var was := disk[..];
        err := WritePage(p);
        forall l | geometry.Has(l)
          ensures ClusterOf(disk[..], geometry, l) ==
                  if old(p.state) == Dirty && l == p.location then p.data else ClusterOf(was, geometry, l)
        {
          ClusterStored(was, geometry, p.location, p.data, l);
        }
        assert Holds(p, p.location);
        forall l | geometry.Has(l)
          ensures Shows(l, old(View(l)))
        {
          assert old(Shows(l, View(l)));
        }
        ShowsView();
      } else {
        err := false;
      }
    }

    /** The list operations of an unlinking. */
    method Unchain(p: Page)
      requires Wired() && p in lru
      modifies `lru, `size, hashtable
      ensures Wired() && lru == Without(old(lru), p) && size == old(size) - 1
    {
      hide Without;
      ghost var table := hashtable[..];
      var b := p.location % tableSize;
      WithoutDistinct(hashtable[b], p);
      hashtable[b] := Without(hashtable[b], p);
      WithoutSorted(lru, p, stamp);
      lru := Without(lru, p);
      size := size - 1;
      assert forall k :: 0 <= k < tableSize && k != b ==> hashtable[k] == table[k];
    }

    /** The unlinking part, for a page that is not dirty. */
    method Unhash(p: Page)
      requires Valid() && p in lru && p.state != Dirty
      modifies `lru, `size, hashtable
      ensures Valid() && lru == Without(old(lru), p) && size == old(size) - 1
      ensures forall l :: geometry.Has(l) ==> View(l) == old(View(l))
    {
      hide Wired, Without, View, ClusterOf;
      ShowsView();
      Unchain(p);
      forall l | geometry.Has(l)
        ensures Shows(l, old(View(l)))
      {
        assert old(Shows(l, View(l)));
      }
      ShowsView();
    }

    /** The list operations of an insertion. */
    method Chain(p: Page)
      requires Wired() && p !in lru && size < capacity
      modifies `lru, `size, `stamp, `clock, hashtable
      ensures Wired() && lru == old(lru) + [p] && size == old(size) + 1 && stamp == old(stamp)[p := old(clock)]
    {
      ghost var table := hashtable[..];
      var b := p.location % tableSize;
      hashtable[b] := [p] + hashtable[b];
      SortedAppend(lru, p, stamp, clock);
      lru := lru + [p];
      stamp := stamp[p := clock];
      clock := clock + 1;
      size := size + 1;
      assert forall k :: 0 <= k < tableSize && k != b ==> hashtable[k] == table[k];
    }

    /**
     * `pcache_add`, for a page that holds what its cluster shows: the least recently used page makes room if the cache
     * is full, and no cluster looks any different.
     */
    method Add(p: Page) returns (err: bool)
      requires Valid() && p !in lru && p.state == Intact && |p.data| == geometry.spc && Sound(p)
      requires forall q :: q in lru ==> !Holds(q, p.location)
      modifies `lru, `size, `stamp, `clock, hashtable, disk, lru`state
      ensures Valid() && !err && p.state == Intact && p.data == View(p.location)
      ensures lru == (if old(size) == capacity then Without(old(lru), old(lru[0])) else old(lru)) + [p]
      ensures stamp == old(stamp)[p := old(clock)]
      ensures forall l :: geometry.Has(l) ==> View(l) == old(View(l))
    {
      hide Wired, View, ClusterOf, Without;
      FullHasFirst();
      SoundUnheld(p);
      if size == capacity {
        var first := lru[0];
        err := Del(first);
        if err {
          return;
        }
        SoundUnheld(p);
      }
      Insert(p);
      err := false;
    }

    /** A full cache has a least recently used page, and it is first in the list. */
    lemma FullHasFirst()
      requires Wired()
      ensures size <= capacity
      ensures size == capacity ==> |lru| > 0 && forall p :: p in lru && p != lru[0] ==> stamp[lru[0]] < stamp[p]
    {
    }

    /** A clean page of a cluster that no cached page stands for holds what the cluster shows. */
    lemma SoundUnheld(p: Page)
      requires Valid() && geometry.Has(p.location) && p.state == Intact && |p.data| == geometry.spc
      requires forall q :: q in lru ==> !Holds(q, p.location)
      ensures Sound(p) <==> p.data == View(p.location)
    {
    }

    /** The insertion itself. */
    method Insert(p: Page)
      requires Valid() && p !in lru && Sound(p) && p.state == Intact && size < capacity
      requires forall q :: q in lru ==> !Holds(q, p.location)
      modifies `lru, `size, `stamp, `clock, hashtable
      ensures Valid() && lru == old(lru) + [p] && stamp == old(stamp)[p := old(clock)] && p.data == View(p.location)
      ensures forall l :: geometry.Has(l) ==> View(l) == old(View(l))
    {
      hide Wired, View, ClusterOf;
      ShowsView();
      Chain(p);
      forall l | geometry.Has(l)
        ensures Shows(l, old(View(l)))
      {
        assert old(Shows(l, View(l)));
      }
      ShowsView();
    }

    /** `fat32_readpage`. */
    method ReadPage(p: Page)
      requires geometry.Fits(disk.Length) && geometry.Has(p.location)
      modifies p`state, p`data
      ensures p.state == Intact && p.data == ClusterOf(disk[..], geometry, p.location)
    {
      geometry.BaseInside(disk.Length, p.location);
      p.state := Intact;
      p.data := disk[geometry.Base(p.location)..geometry.Base(p.location) + geometry.spc];
    }

    /**
     * `general_find_page`, for a cluster that no other inode has in the cache: the page found or read in holds what the
     * cluster showed before, and no cluster looks any different.
     */
    method FindPage(location: u32, host: nat) returns (page: Page)
      requires Valid() && geometry.Has(location)
      requires forall q :: q in lru && Holds(q, location) ==> q.host == host
      modifies `lru, `size, `stamp, `clock, hashtable, disk, lru`state
      ensures Valid() && page in lru && Holds(page, location) && page.host == host
      ensures page.data == old(View(location))
      ensures forall l :: geometry.Has(l) ==> View(l) == old(View(l))
      ensures page in old(lru) || fresh(page)
      ensures forall q :: q in lru ==> q in old(lru) || q == page
    {
      hide Wired, View, ClusterOf, Without;
      var found := LookUp(location, host);
      if found != null {
        ViewCached(found);
        return found;
      }
      page := new Page(location, host);
      ReadPage(page);
      var err := Add(page);
    }

    /** What the callers of `general_find_page` do to write: the data is changed in the page, which is dirty then. */
    method Update(page: Page, data: seq<Sector>)
      requires Valid() && page in lru && page.state != Invalid && |data| == geometry.spc
      modifies page`data, page`state
      ensures Valid() && View(page.location) == data
      ensures forall l :: geometry.Has(l) && l != page.location ==> View(l) == old(View(l))
    {
      hide Wired, View, ClusterOf;
      ShowsView();
      page.data := data;
      page.state := Dirty;
      assert Holds(page, page.location) && Shows(page.location, data);
      forall l | geometry.Has(l) && l != page.location
        ensures Shows(l, old(View(l)))
      {
        assert old(Shows(l, View(l)));
      }
      ShowsView();
    }
  }

  // ---- whole runs ------------------------------------------------------------------------------------------

  datatype Op = Read(location: u32) | Write(location: u32, data: seq<Sector>)

  type Memory = map<u32, seq<Sector>>

  /** What plain memory answers to the reads among `ops`. */
  function Answers(ops: seq<Op>, m: Memory): seq<seq<Sector>>
  {
    if ops == [] then []
    else match ops[0]
      case Read(l) => [if l in m then m[l] else []] + Answers(ops[1..], m)
      case Write(l, d) => Answers(ops[1..], m[l := d])
  }

  /** And what it holds after them. */
  function After(ops: seq<Op>, m: Memory): Memory
  {
    if ops == [] then m
    else match ops[0]
      case Read(_) => After(ops[1..], m)
      case Write(l, d) => After(ops[1..], m[l := d])
  }

  /** The first of the remaining operations. */
  lemma OneMore(ops: seq<Op>, i: nat, m: Memory)
    requires i < |ops| && (ops[i].Read? ==> ops[i].location in m)
    ensures ops[i].Read? ==>
      && Answers(ops[i..], m) == [m[ops[i].location]] + Answers(ops[i + 1..], m)
      && After(ops[i..], m) == After(ops[i + 1..], m)
    ensures ops[i].Write? ==>
      var m' := m[ops[i].location := ops[i].data];
      Answers(ops[i..], m) == Answers(ops[i + 1..], m') && After(ops[i..], m) == After(ops[i + 1..], m')
  {
    assert ops[i..][1..] == ops[i + 1..];
  }

  lemma NoneLeft(ops: seq<Op>, m: Memory)
    ensures Answers(ops[|ops|..], m) == [] && After(ops[|ops|..], m) == m && ops[0..] == ops
  {
  }

  /** All clusters as the kernel sees them. */
  ghost function MemoryOf(c: Cache): Memory
    requires c.geometry.Fits(c.disk.Length)
    reads c, c.disk, c.lru
  {
    map l: u32 | 2 <= l < c.geometry.clusters + 2 :: c.View(l)
  }

  /** Each cached page belongs to the inode that owns its cluster. */
  ghost predicate Owned(c: Cache, owner: u32 -> nat)
    reads c
  {
    forall p :: p in c.lru ==> p.host == owner(p.location)
  }

  /** One operation through the cache. */
  method ServeOne(c: Cache, owner: u32 -> nat, op: Op) returns (answer: Option<seq<Sector>>)
    requires c.Valid() && Owned(c, owner) && c.geometry.Has(op.location) && (op.Write? ==> |op.data| == c.geometry.spc)
    modifies c, c.hashtable, c.disk, Elements(c.lru)
    ensures c.Valid() && Owned(c, owner)
    ensures fresh(Elements(c.lru) - old(Elements(c.lru)))
    ensures op.Read? ==> answer == Some(old(c.View(op.location))) && MemoryOf(c) == old(MemoryOf(c))
    ensures op.Write? ==> answer == None && MemoryOf(c) == old(MemoryOf(c))[op.location := op.data]
  {
    hide Cache.View, Cache.Sound, Cache.Wired;
    var page := c.FindPage(op.location, owner(op.location));
    match op
    case Read(l) =>
      answer := Some(page.data);
    case Write(l, d) =>
      c.Update(page, d);
      answer := None;
  }

  /**
   * Through any number of hits, misses and evictions the cache answers like plain memory: each read gets the last
   * value written to that cluster, or what the cluster showed at the start, and afterwards every cluster shows the last
   * value written to it.
   */
  method Serve(c: Cache, owner: u32 -> nat, ops: seq<Op>) returns (out: seq<seq<Sector>>)
    requires c.Valid() && Owned(c, owner)
    requires forall o :: o in ops ==> c.geometry.Has(o.location) && (o.Write? ==> |o.data| == c.geometry.spc)
    modifies c, c.hashtable, c.disk, Elements(c.lru)
    ensures c.Valid() && Owned(c, owner)
    ensures out == Answers(ops, old(MemoryOf(c))) && MemoryOf(c) == After(ops, old(MemoryOf(c)))
  {
    hide Answers, After, Cache.View, Cache.Wired, Cache.Sound, Owned;
    out := [];
    ghost var m0 := MemoryOf(c);
    NoneLeft(ops, m0);
    for i := 0 to |ops|
      invariant c.Valid() && Owned(c, owner)
      invariant fresh(Elements(c.lru) - old(Elements(c.lru)))
      invariant out + Answers(ops[i..], MemoryOf(c)) == Answers(ops, m0)
      invariant After(ops[i..], MemoryOf(c)) == After(ops, m0)
    {
      assert ops[i] in ops;
      OneMore(ops, i, MemoryOf(c));
      var answer := ServeOne(c, owner, ops[i]);
      if answer.Some? {
        out := out + [answer.value];
      }
    }
    NoneLeft(ops, MemoryOf(c));
  }
}
