/**
 * Whole runs over the FAT: files created (with or without growing the parent in between), extended and deleted in any
 * order (kernel/vfs/fat32.c: fat32_createinode, fat32_create_page, fat32_deleteinode).
 */
module FileSystemRun {
  import opened Common
  import opened FreeSpace
  import opened Chains
  import opened FatTable
  import opened VolumeModule
  import opened FileSystemModule

  /** Open files are named by their position; positions out of range name none. */
  datatype Op =
    | Create(parent: nat)
    | Extend(file: nat, cnt: nat)
    | Delete(file: nat)

  /** The inodes in memory are those of `open`, each once. */
  ghost predicate Opened(fs: FileSystem, open: seq<Inode>)
    reads fs
  {
    Distinct(open) && Elements(open) == fs.live
  }

  /** How many clusters an operation takes at most: a new file one, and one more if its parent grows. */
  function Wanted(op: Op, open: nat): nat {
    match op
    case Create(parent) => if parent < open then 2 else 1
    case Extend(file, cnt) => if file < open then cnt else 0
    case Delete(_) => 0
  }

  /** The FAT, the files, the first clusters of the open ones, and the count of free clusters. */
  datatype View = View(entries: seq<u32>, files: map<u32, seq<u32>>, inos: seq<u32>, free: u32)

  function InosOf(open: seq<Inode>): (inos: seq<u32>)
    ensures |inos| == |open| && forall i :: 0 <= i < |open| ==> inos[i] == open[i].ino
  {
    seq(|open|, i requires 0 <= i < |open| => open[i].ino)
  }

  ghost function ViewOf(fs: FileSystem, open: seq<Inode>): View
    requires fs.vol.Valid()
    reads fs, fs.vol.Repr()
  {
    View(fs.vol.fat.entries, fs.files, InosOf(open), fs.vol.fi[FREE_CLSTS])
  }

  ghost predicate FreeIn(entries: seq<u32>, got: seq<u32>) {
    forall c :: c in got ==> 2 <= c < |entries| && entries[c] == 0
  }

  /** The files after file `h` has grown by the clusters `got`. */
  ghost function Grown(files: map<u32, seq<u32>>, h: u32, got: seq<u32>): map<u32, seq<u32>>
    requires h in files
  {
    files[h := files[h] + got]
  }

  /**
   * There is a new file of one free cluster, and its parent, if it is one of the open files, has grown by another.  Of
   * the FAT only the entries of these clusters and of the parent's last one have changed.
   */
  ghost predicate Adds(v: View, w: View, parent: nat, got: seq<u32>, p: u32) {
    && FreeIn(v.entries, got + [p]) && p !in got && |got| == (if parent < |v.inos| then 1 else 0)
    && (if parent < |v.inos| then
          v.inos[parent] in v.files && OnlyLinked(v.entries, w.entries, v.files[v.inos[parent]], got + [p])
        else p < |v.entries| && w.entries == v.entries[p := END_OF_CHAIN])
    && w.files == (if parent < |v.inos| then Grown(v.files, v.inos[parent], got) else v.files)[p := [p]]
    && w.inos == v.inos + [p] && w.free == v.free - |got| - 1
  }

  /** What an operation does.  A creation that finds no cluster for its parent to grow by leaves the count at 0. */
  ghost predicate Effect(op: Op, v: View, w: View) {
    match op
    case Create(parent) =>
      if v.free <= (if parent < |v.inos| then 1 else 0) then w == v.(free := 0)
      else exists got, p :: Adds(v, w, parent, got, p)
    case Extend(file, cnt) =>
      if file < |v.inos| then
        && v.inos[file] in v.files
        && w.inos == v.inos && w.free == v.free - Min(cnt, v.free)
        && exists got ::
             && FreeIn(v.entries, got) && |got| == Min(cnt, v.free) && w.files == Grown(v.files, v.inos[file], got)
             && OnlyLinked(v.entries, w.entries, v.files[v.inos[file]], got)
      else w == v
    case Delete(file) =>
      if file < |v.inos| then
        && v.inos[file] in v.files
        && w.files == v.files - {v.inos[file]} && w.entries == Cleared(v.entries, v.files[v.inos[file]])
        && w.inos == v.inos[..file] + v.inos[file + 1..]
        && w.free == Add32(v.free, |v.files[v.inos[file]]|)
      else w == v
  }

  /** An operation other than a deletion takes as many clusters as it wants, or as many as are counted. */
  lemma TakesWanted(op: Op, v: View, w: View)
    requires Effect(op, v, w) && !op.Delete?
    ensures w.free == v.free - Min(Wanted(op, |v.inos|), v.free)
  {
  }

  /** A file that has grown by nothing has the same FAT. */
  lemma Unlinked(before: seq<u32>, after: seq<u32>, files: map<u32, seq<u32>>, foreign: set<u32>, h: u32)
    requires WellFormed(before, files, foreign) && WellFormed(after, files, foreign) && h in files
    requires OnlyLinked(before, after, files[h], [])
    ensures after == before
  {
    assert before[Last(files[h])] == END_OF_CHAIN == after[Last(files[h])];
  }

  /** The parent of a new file grows by one cluster while that of the file, `p`, is handed out. */
  method GrowParent(fs: FileSystem, inode: Inode, p: u32) returns (ok: bool, ghost got: seq<u32>)
    requires fs.Valid() && inode in fs.live && fs.Ready({p as nat}) && fs.Enough(1)
    modifies fs.vol.fat`fatSectOff, fs.vol.fat`entries, fs.vol.fat.buf, fs.vol.fat.disk, fs.vol.fi,
             inode`blocks, inode`aPage, fs`files
    ensures fs.Valid() && fs.Ready({p as nat}) && inode.ino in old(fs.files)
    ensures ok <==> old(fs.vol.fi[FREE_CLSTS]) > 0
    ensures !ok ==>
      && fs.files == old(fs.files) && fs.vol.fat.entries == old(fs.vol.fat.entries)
      && fs.vol.fi[FREE_CLSTS] == old(fs.vol.fi[FREE_CLSTS])
    ensures ok ==>
      && |got| == 1 && FreeIn(old(fs.vol.fat.entries), got) && p !in got
      && fs.files == Grown(old(fs.files), inode.ino, got)
      && fs.vol.fi[FREE_CLSTS] == old(fs.vol.fi[FREE_CLSTS]) - 1
      && OnlyLinked(old(fs.vol.fat.entries), fs.vol.fat.entries, old(fs.files)[inode.ino], got)
  {
    hide FsInfoOk, WellFormed, FatBuffer.Valid;
    assert fs.Agrees(inode);
    ghost var files := fs.files;
    var done;
    done, got := fs.CreatePage(inode, 1, {p as nat});
    ok := done == 1;
    if !ok {
      assert files[inode.ino] + got == files[inode.ino] && fs.files == files;
      Unlinked(old(fs.vol.fat.entries), fs.vol.fat.entries, files, fs.foreign, inode.ino);
    }
  }

  lemma StillFree(fs: FileSystem, p: u32)
    requires fs.vol.Valid() && fs.Ready({p as nat})
    ensures p < fs.vol.TotalDatClst() <= |fs.vol.fat.entries| && fs.vol.fat.entries[p] == 0
  {
    ReservedIsFree(fs.vol.fat.entries, fs.vol.TotalDatClst(), {p as nat}, fs.lost,
                   fs.vol.fi[FREE_CLSTS], fs.vol.fi[NEXT_FREE_CLST], p);
  }

  /** The cluster handed out becomes a file, which is open from now on. */
  method OpenNew(fs: FileSystem, open: seq<Inode>, p: u32) returns (open': seq<Inode>)
    requires fs.Valid() && fs.Ready({p as nat}) && Opened(fs, open) && 2 <= p
    modifies fs.vol.fat`fatSectOff, fs.vol.fat`entries, fs.vol.fat.buf, fs.vol.fat.disk, fs`files, fs`live
    ensures fs.Valid() && fs.Ready({}) && Opened(fs, open') && fresh(Elements(open') - Elements(open))
    ensures old(p !in fs.files) && fs.files == old(fs.files)[p := [p]] && InosOf(open') == InosOf(open) + [p]
    ensures p < |old(fs.vol.fat.entries)| && fs.vol.fat.entries == old(fs.vol.fat.entries)[p := END_OF_CHAIN]
    ensures fs.vol.fi[FREE_CLSTS] == old(fs.vol.fi[FREE_CLSTS])
  {
    hide FsInfoOk, WellFormed, FatBuffer.Valid, FileSystem.Mapped;
    StillFree(fs, p);
    var inode := fs.InstallFile(p);
    AppendElements(open, inode);
    open' := open + [inode];
  }

  /** Besides the entries that link a file on, that of the new one has changed. */
  lemma AlsoEnded(before: seq<u32>, linked: seq<u32>, chain: seq<u32>, got: seq<u32>, p: u32)
    requires OnlyLinked(before, linked, chain, got) && p < |linked|
    ensures OnlyLinked(before, linked[p := END_OF_CHAIN], chain, got + [p])
  {
  }

  /**
   * The rest of a creation, of which `v` shows the beginning: the parent may grow, then the new file's cluster is
   * marked, or given up.
   */
  method PlaceFile(fs: FileSystem, open: seq<Inode>, parent: nat, p: u32, ghost v: View) returns (open': seq<Inode>)
    requires fs.vol.Valid() && v == ViewOf(fs, open).(free := v.free)
    requires v.free as int == fs.vol.fi[FREE_CLSTS] as int + 1
    requires fs.Valid() && fs.Ready({p as nat}) && Opened(fs, open) && 2 <= p && (parent < |open| ==> fs.Enough(1))
    modifies fs, fs.vol.Repr(), Elements(open)
    ensures fs.Valid() && fs.Ready({}) && Opened(fs, open')
    ensures fresh(Elements(open') - Elements(open))
    ensures var w := ViewOf(fs, open');
      if parent < |open| && v.free == 1 then w == v.(free := 0) else exists got :: Adds(v, w, parent, got, p)
  {
    hide FsInfoOk, WellFormed, FatBuffer.Valid, FileSystem.Mapped, OnlyLinked;
    open' := open;
    ghost var got := [];
    StillFree(fs, p);
    if parent < |open| {
      var ok;
      ok, got := GrowParent(fs, open[parent], p);
      if !ok {
        fs.Abandon(p);
        return;
      }
    }
    ghost var linked := fs.vol.fat.entries;
    open' := OpenNew(fs, open, p);
    if parent < |open| {
      AlsoEnded(v.entries, linked, v.files[v.inos[parent]], got, p);
    }
    assert Adds(v, ViewOf(fs, open'), parent, got, p);
  }

  /** A new file: its cluster is handed out, then the parent may grow, then the cluster is marked. */
  method StepCreate(fs: FileSystem, open: seq<Inode>, parent: nat) returns (open': seq<Inode>)
    requires fs.Valid() && fs.Ready({}) && Opened(fs, open) && fs.Enough(Wanted(Create(parent), |open|))
    modifies fs, fs.vol.Repr(), Elements(open)
    ensures fs.Valid() && fs.Ready({}) && Opened(fs, open')
    ensures fresh(Elements(open') - Elements(open))
    ensures Effect(Create(parent), old(ViewOf(fs, open)), ViewOf(fs, open'))
  {
    hide FsInfoOk, WellFormed, FatBuffer.Valid, FileSystem.Mapped, Adds;
    open' := open;
    ghost var v := ViewOf(fs, open);
    var r := fs.Reserve();
    if r.Some? {
      open' := PlaceFile(fs, open, parent, r.value, v);
    }
  }

  /** More clusters for an open file, as many as asked for or as are left. */
  method StepExtend(fs: FileSystem, open: seq<Inode>, file: nat, cnt: nat)
    requires fs.Valid() && fs.Ready({}) && Opened(fs, open) && fs.Enough(Wanted(Extend(file, cnt), |open|))
    modifies fs, fs.vol.Repr(), Elements(open)
    ensures fs.Valid() && fs.Ready({}) && Opened(fs, open)
    ensures Effect(Extend(file, cnt), old(ViewOf(fs, open)), ViewOf(fs, open))
  {
    hide FsInfoOk, WellFormed, FatBuffer.Valid, OnlyLinked;
    if file < |open| {
      assert fs.Agrees(open[file]);
      ghost var v := ViewOf(fs, open);
      var done, got := fs.CreatePage(open[file], cnt, {});
      assert FreeIn(v.entries, got) && |got| == Min(cnt, v.free) && fs.files == Grown(v.files, open[file].ino, got);
      assert OnlyLinked(v.entries, fs.vol.fat.entries, v.files[open[file].ino], got);
    }
  }

  /** Whether giving back a file's clusters will leave a usable hint, found out beforehand. */
  method HintSurvives(fs: FileSystem, inode: Inode) returns (ok: bool)
    requires fs.Valid() && fs.Ready({}) && inode in fs.live
    modifies fs.vol.fat`fatSectOff, fs.vol.fat.buf, fs.vol.fat.disk
    ensures fs.Valid() && fs.Ready({}) && fs.vol.fat.entries == old(fs.vol.fat.entries)
    ensures ok <==> fs.Returnable(inode)
    ensures fs.Returnable(inode) == old(fs.Returnable(inode)) && fs.vol.fi[..] == old(fs.vol.fi[..])
  {
    hide FsInfoOk, WellFormed, CopyLayout, Mirrored, Holds, InFatRegion;
    var total: nat := fs.vol.TotalDatClst();
    var hint := fs.vol.fi[NEXT_FREE_CLST];
    ghost var chain := fs.files[inode.ino];
    assert fs.Agrees(inode);
    var unseen, below := true, false;
    for i := 0 to inode.blocks
      invariant unseen <==> forall k :: 0 <= k < i ==> inode.aPage[k] >= total
      invariant below <==> exists k :: 0 <= k < i && inode.aPage[k] < total && inode.aPage[k] <= hint
    {
      unseen := unseen && inode.aPage[i] >= total;
      below := below || (inode.aPage[i] < total && inode.aPage[i] <= hint);
    }
    TableSays(inode.aPage[..inode.blocks], chain, total, hint);
    ok := unseen || below;
    if !ok && hint < total {
      var v := fs.vol.ReadFat(hint);
      ok := v == 0;
    }
  }

  /** The two tests on the page table are those on the chain. */
  lemma TableSays(table: seq<u32>, chain: seq<u32>, total: nat, hint: nat)
    requires table == chain
    ensures (forall k :: 0 <= k < |table| ==> table[k] >= total) <==> (forall c :: c in chain ==> c >= total)
    ensures (exists k :: 0 <= k < |table| && table[k] < total && table[k] <= hint) <==>
            (exists c :: c in chain && c < total && c <= hint)
  {
    assert forall k :: 0 <= k < |table| ==> table[k] in chain;
    if c :| c in chain && c < total && c <= hint {
      var k :| 0 <= k < |chain| && chain[k] == c;
      assert table[k] <= hint;
    }
  }

  /** How many clusters the search of `apply_fat` can find. */
  method CountFree(fs: FileSystem) returns (n: nat)
    requires fs.Valid() && fs.Ready({})
    modifies fs.vol.fat`fatSectOff, fs.vol.fat.buf, fs.vol.fat.disk
    ensures fs.Valid() && fs.Ready({}) && fs.vol.fat.entries == old(fs.vol.fat.entries)
    ensures n == fs.vol.fi[FREE_CLSTS] + fs.lost && fs.vol.fi[..] == old(fs.vol.fi[..])
  {
    hide FsInfoOk, WellFormed, Zeros, CopyLayout, Mirrored, Holds, InFatRegion;
    var total := fs.vol.TotalDatClst();
    ghost var entries := fs.vol.fat.entries;
    n := 0;
    CountStart(entries);
    for i := 0 to total
      invariant fs.Valid() && fs.Ready({}) && fs.vol.fat.entries == entries
      invariant n == |Zeros(entries, i)|
    {
      var v := fs.vol.ReadFat(i);
      CountStep(entries, i);
      if v == 0 {
        n := n + 1;
      }
    }
    NoneReserved(entries, total, fs.lost, fs.vol.fi[FREE_CLSTS], fs.vol.fi[NEXT_FREE_CLST]);
  }

  lemma CountStart(entries: seq<u32>)
    ensures Zeros(entries, 0) == {}
  {
  }

  lemma CountStep(entries: seq<u32>, i: nat)
    requires i < |entries|
    ensures |Zeros(entries, i + 1)| == |Zeros(entries, i)| + if entries[i] == 0 then 1 else 0
  {
    assert Zeros(entries, i + 1) == Zeros(entries, i) + if entries[i] == 0 then {i} else {};
  }

  /** A file goes, unless that would leave a stale hint. */
  method StepDelete(fs: FileSystem, open: seq<Inode>, file: nat) returns (open': seq<Inode>, ok: bool)
    requires fs.Valid() && fs.Ready({}) && Opened(fs, open)
    modifies fs, fs.vol.Repr()
    ensures fs.Valid() && fs.Ready({}) && Opened(fs, open')
    ensures Elements(open') <= Elements(open)
    ensures ok ==> Effect(Delete(file), old(ViewOf(fs, open)), ViewOf(fs, open'))
    ensures !ok ==> open' == open && ViewOf(fs, open) == old(ViewOf(fs, open))
    ensures !ok ==> file < |open| && !fs.Returnable(open[file])
    ensures ok <==> file >= |open| || old(fs.Returnable(open[file]))
  {
    hide FsInfoOk, WellFormed, FatBuffer.Valid, RetakeOk, Cleared, ClearedHint, LostAfter;
    open', ok := open, true;
    if file < |open| {
      assert fs.Agrees(open[file]);
      ok := HintSurvives(fs, open[file]);
      if ok {
        fs.DropFile(open[file]);
        open' := open[..file] + open[file + 1..];
        assert InosOf(open') == InosOf(open)[..file] + InosOf(open)[file + 1..];
        assert forall n :: n in open <==> n in open' || n == open[file];
      }
    }
  }

  /** Whether the search of `apply_fat` will find what the operation takes. */
  method WillFind(fs: FileSystem, open: seq<Inode>, op: Op) returns (ok: bool)
    requires fs.Valid() && fs.Ready({}) && Opened(fs, open)
    modifies fs.vol.fat`fatSectOff, fs.vol.fat.buf, fs.vol.fat.disk
    ensures fs.Valid() && fs.Ready({}) && ViewOf(fs, open) == old(ViewOf(fs, open))
    ensures ok <==> fs.Enough(Wanted(op, |open|))
  {
    hide FsInfoOk, WellFormed, FatBuffer.Valid, FileSystem.Mapped, Opened;
    var n := CountFree(fs);
    return n >= fs.vol.fi[FREE_CLSTS] || Wanted(op, |open|) <= n;
  }

  /** A view of a volume in order: the FAT is a disjoint union of acyclic chains, which are the files. */
  ghost predicate Ordered(v: View, foreign: set<u32>) {
    && WellFormed(v.entries, v.files, foreign)
    && (forall h :: h in v.inos ==> h in v.files)
  }

  /**
   * Any run of creations, extensions and deletions: after every one of them the FAT is a disjoint union of acyclic
   * chains, every inode in memory has exactly its file's chain, and FSINFO is correct.  `trace` shows the volume
   * between the operations, each of which had its effect.  The run is cut off only before a deletion that would leave a
   * stale hint, and before an operation that would take more clusters than the search can find although the count has
   * them.
   */
  method Run(fs: FileSystem, open: seq<Inode>, ops: seq<Op>)
    returns (open': seq<Inode>, n: nat, ghost trace: seq<View>)
    requires fs.Valid() && fs.Ready({}) && Opened(fs, open)
    modifies fs, fs.vol.Repr(), Elements(open)
    ensures fs.Valid() && fs.Ready({}) && Opened(fs, open') && n <= |ops|
    ensures |trace| == n + 1 && trace[0] == old(ViewOf(fs, open)) && trace[n] == ViewOf(fs, open')
    ensures forall i :: 0 <= i < n ==> Effect(ops[i], trace[i], trace[i + 1])
    ensures forall i :: 0 <= i <= n ==> Ordered(trace[i], fs.foreign)
    ensures n < |ops| ==>
      || !fs.Enough(Wanted(ops[n], |open'|))
      || (ops[n].Delete? && ops[n].file < |open'| && !fs.Returnable(open'[ops[n].file]))
  {
    hide FsInfoOk, WellFormed, Volume.Valid, FileSystem.Mapped, RetakeOk, Opened, FileSystem.Enough, Effect, Ordered;
    open', n, trace := open, 0, [ViewOf(fs, open)];
    InOrder(fs, open);
    while n < |ops|
      invariant n <= |ops| && fs.Valid() && fs.Ready({}) && Opened(fs, open')
      invariant fresh(Elements(open') - Elements(open))
      invariant |trace| == n + 1 && trace[0] == old(ViewOf(fs, open)) && trace[n] == ViewOf(fs, open')
      invariant forall i :: 0 <= i < n ==> Effect(ops[i], trace[i], trace[i + 1])
      invariant forall i :: 0 <= i <= n ==> Ordered(trace[i], fs.foreign)
    {
      var ok := WillFind(fs, open', ops[n]);
      if !ok {
        return;
      }
      match ops[n] {
        case Create(parent) =>
          open' := StepCreate(fs, open', parent);
        case Extend(file, cnt) =>
          StepExtend(fs, open', file, cnt);
        case Delete(file) =>
          open', ok := StepDelete(fs, open', file);
          if !ok {
            return;
          }
      }
      InOrder(fs, open');
      n, trace := n + 1, trace + [ViewOf(fs, open')];
    }
  }

  lemma InOrder(fs: FileSystem, open: seq<Inode>)
    requires fs.Valid() && Opened(fs, open)
    ensures Ordered(ViewOf(fs, open), fs.foreign)
  {
    hide WellFormed, Volume.Valid;
    forall h | h in InosOf(open)
      ensures h in fs.files
    {
      var i :| 0 <= i < |open| && open[i].ino == h;
      assert open[i] in fs.live && fs.Agrees(open[i]);
    }
  }
}
