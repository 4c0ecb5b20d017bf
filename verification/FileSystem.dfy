/**
 * In-memory inodes over the FAT (kernel/vfs/fat32.c: fat32_create_page, fat32_fill_mapping, fat32_bmap and the
 * FAT parts of fat32_createinode and fat32_deleteinode).  `files` is what the disk says; every live inode's page
 * table has to say the same.
 */
module FileSystemModule {
  import opened Common
  import opened FreeSpace
  import opened Chains
  import opened FatTable
  import opened VolumeModule

  /** `struct inode` with its address space: `aPage[..blocks]` maps file pages to clusters. */
  class Inode {
    const ino: u32
    var blocks: nat
    var aPage: array<u32>

    constructor (ino: u32, blocks: nat, aPage: array<u32>)
      ensures this.ino == ino && this.blocks == blocks && this.aPage == aPage
    {
      this.ino := ino;
      this.blocks := blocks;
      this.aPage := aPage;
    }
  }

  /** A fresh table of `capacity` words whose first `count` words are those of `src`. */
  method CopyTable(src: array<u32>, count: nat, capacity: nat) returns (dst: array<u32>)
    requires count <= src.Length && count <= capacity
    ensures fresh(dst) && dst.Length == capacity && dst[..count] == src[..count]
  {
    dst := new u32[capacity];
    forall i | 0 <= i < count {
      dst[i] := src[i];
    }
  }

  class FileSystem {
    const vol: Volume
    /** First cluster of each file on the disk, with its chain. */
    ghost var files: map<u32, seq<u32>>
    /** Used entries that belong to no file. */
    ghost const foreign: set<u32>
    /** How many of the free clusters that the search sees FSINFO does not count; negative if it counts too many. */
    ghost var lost: int
    ghost var live: set<Inode>

    constructor (vol: Volume, ghost files: map<u32, seq<u32>>, ghost foreign: set<u32>, ghost lost: int)
      requires vol.Valid() && WellFormed(vol.fat.entries, files, foreign) && vol.InfoOk({}, lost)
      ensures Valid() && Ready({})
      ensures this.vol == vol && this.files == files && this.foreign == foreign && this.lost == lost && live == {}
    {
      this.vol := vol;
      this.files := files;
      this.foreign := foreign;
      this.lost := lost;
      live := {};
    }

    /** The inode's page table is its file's chain. */
    ghost predicate Agrees(n: Inode)
      reads `files, n, n.aPage
    {
      && n.ino in files && n.blocks <= n.aPage.Length
      && n.aPage[..n.blocks] == files[n.ino]
      && n.aPage !in vol.Repr()
    }

    /** Every live inode's page table is its chain, and no two inodes share a file or a table. */
    ghost predicate Mapped()
      reads `files, `live, live, set n | n in live :: n.aPage
    {
      && (forall n :: n in live ==> Agrees(n))
      && (forall n, m :: n in live && m in live && n != m ==> n.ino != m.ino && n.aPage != m.aPage)
    }

    ghost predicate Valid()
      reads this, vol.Repr(), live, set n | n in live :: n.aPage
    {
      && vol.Valid()
      && WellFormed(vol.fat.entries, files, foreign)
      && Mapped()
    }

    /** FSINFO agrees with the FAT, `reserved` being handed out but not yet marked. */
    ghost predicate Ready(reserved: set<nat>)
      requires vol.Valid()
      reads this, vol.Repr()
    {
      vol.InfoOk(reserved, lost)
    }

    /**
     * `cnt` calls of `apply_fat` come to an end with clusters that are free: the search sees as many as are asked for,
     * or as many as are counted.
     */
    ghost predicate Enough(cnt: nat)
      requires vol.Valid()
      reads this, vol.Repr()
    {
      lost >= 0 || cnt <= vol.fi[FREE_CLSTS] + lost
    }

    lemma EnoughIff(cnt: nat, reserved: set<nat>)
      requires vol.Valid() && Ready(reserved)
      ensures Enough(cnt) <==> Min(cnt, vol.fi[FREE_CLSTS]) <= |Zeros(vol.fat.entries, vol.TotalDatClst()) - reserved|
    {
    }

    /** Giving back the file's clusters leaves FSINFO correct. */
    ghost predicate Returnable(inode: Inode)
      requires vol.Valid()
      reads this, vol.Repr()
    {
      inode.ino in files
      && RetakeOk(vol.fat.entries, vol.TotalDatClst(), vol.fi[NEXT_FREE_CLST], files[inode.ino])
    }

    /** The loop body of `fat32_create_page`: take a cluster, append it to the page table, link it, end the chain. */
    method AppendPage(inode: Inode, ghost reserved: set<nat>) returns (ok: bool)
      requires vol.Valid() && Ready(reserved) && Enough(1)
      requires 0 < inode.blocks < inode.aPage.Length && inode.aPage !in vol.Repr()
      requires var last := inode.aPage[inode.blocks - 1]; 2 <= last < |vol.fat.entries| && vol.fat.entries[last] != 0
      modifies vol.fat`fatSectOff, vol.fat`entries, vol.fat.buf, vol.fat.disk, vol.fi, inode`blocks, inode.aPage
      ensures vol.Valid() && Ready(reserved)
      ensures ok <==> old(vol.fi[FREE_CLSTS]) > 0
      ensures !ok ==>
        && inode.blocks == old(inode.blocks) && inode.aPage[..] == old(inode.aPage[..])
        && vol.fat.entries == old(vol.fat.entries) && vol.fi[..] == old(vol.fi[..])
      ensures ok ==>
        var c := old(vol.fi[NEXT_FREE_CLST]);
        && 2 <= c < vol.TotalDatClst() && old(vol.fat.entries)[c] == 0 && c as nat !in reserved
        && inode.blocks == old(inode.blocks) + 1
        && inode.aPage[..] == old(inode.aPage[..])[old(inode.blocks) := c]
        && vol.fi[FREE_CLSTS] == old(vol.fi[FREE_CLSTS]) - 1
        && vol.fat.entries == old(vol.fat.entries)[old(inode.aPage[inode.blocks - 1]) := c][c := END_OF_CHAIN]
    {
      hide FsInfoOk, Zeros;
      var r := vol.Take(reserved, lost);
      if r == None {
        return false;
      }
      var c := r.value;
      inode.aPage[inode.blocks] := c;
      inode.blocks := inode.blocks + 1;
      vol.Link(inode.aPage[inode.blocks - 2], c, reserved, lost);
      return true;
    }

    /** Changing one inode's table and its file leaves every other inode in agreement. */
    twostate lemma OthersAgree(inode: Inode)
      requires old(Mapped()) && inode in live && live == old(live)
      requires forall n :: n in live && n != inode ==> unchanged(n) && unchanged(n.aPage)
      requires forall h :: h in old(files) && h != inode.ino ==> h in files && files[h] == old(files)[h]
      ensures forall n :: n in live && n != inode ==> Agrees(n)
    {
      forall n | n in live && n != inode
        ensures Agrees(n)
      {
        assert old(Agrees(n));
      }
    }

    /** The page-table part of `Mapped` for one inode. */
    lemma TableIsChain(inode: Inode)
      requires Valid() && inode in live
      ensures inode.ino in files
      ensures 0 < inode.blocks <= inode.aPage.Length && inode.aPage[inode.blocks - 1] == Last(files[inode.ino])
      ensures var last := inode.aPage[inode.blocks - 1]; 2 <= last < |vol.fat.entries| && vol.fat.entries[last] != 0
    {
      assert IsChain(vol.fat.entries, inode.aPage[..inode.blocks]);
    }

    /** Growing a file by one cluster: the file's chain and page table gain it, no other file changes. */
    method GrowOne(inode: Inode, ghost reserved: set<nat>) returns (ok: bool)
      requires Valid() && inode in live && Ready(reserved) && Enough(1)
      requires inode.blocks < inode.aPage.Length
      modifies vol.fat`fatSectOff, vol.fat`entries, vol.fat.buf, vol.fat.disk, vol.fi, inode`blocks, inode.aPage, `files
      ensures Valid() && Ready(reserved)
      ensures ok <==> old(vol.fi[FREE_CLSTS]) > 0
      ensures !ok ==>
        && files == old(files) && inode.blocks == old(inode.blocks)
        && vol.fat.entries == old(vol.fat.entries) && vol.fi[..] == old(vol.fi[..])
      ensures ok ==>
        var c := old(vol.fi[NEXT_FREE_CLST]);
        && 2 <= c < vol.TotalDatClst() && old(vol.fat.entries)[c] == 0 && c as nat !in reserved
        && files == old(files)[inode.ino := old(files[inode.ino]) + [c]]
        && inode.blocks == old(inode.blocks) + 1
        && vol.fi[FREE_CLSTS] == old(vol.fi[FREE_CLSTS]) - 1
        && vol.fat.entries == old(vol.fat.entries)[old(inode.aPage[inode.blocks - 1]) := c][c := END_OF_CHAIN]
    {
      hide FsInfoOk, Zeros, FatSized, AllChains, Separate, Covered, CopyLayout, Mirrored, Holds, InFatRegion;
      TableIsChain(inode);
      ok := AppendPage(inode, reserved);
      if ok {
        ghost var c := old(vol.fi[NEXT_FREE_CLST]);
        ExtendKeeps(old(vol.fat.entries), files, foreign, inode.ino, c);
        files := files[inode.ino := files[inode.ino] + [c]];
        OthersAgree(inode);
        assert Agrees(inode);
      }
    }

    /** The first half of `fat32_create_page`: the page table moves to a larger array. */
    method Widen(inode: Inode, cnt: nat)
      requires Valid() && inode in live
      modifies inode`aPage
      ensures Valid() && fresh(inode.aPage) && inode.aPage.Length == inode.blocks + cnt
    {
      hide WellFormed, Volume.Valid;
      inode.aPage := CopyTable(inode.aPage, inode.blocks, inode.blocks + cnt);
      OthersAgree(inode);
      assert Agrees(inode);
    }

    /**
     * `fat32_create_page`: move to a larger page table, then grow one cluster at a time until `cnt` are there or
     * the volume is full.  Even when it stops early the chain, the table and every other file are in order.
     */
    method CreatePage(inode: Inode, cnt: nat, ghost reserved: set<nat>) returns (done: nat, ghost got: seq<u32>)
      requires Valid() && inode in live && Ready(reserved) && Enough(cnt)
      modifies vol.fat`fatSectOff, vol.fat`entries, vol.fat.buf, vol.fat.disk, vol.fi,
               inode`blocks, inode`aPage, `files
      ensures Valid() && Ready(reserved)
      ensures done == if cnt <= old(vol.fi[FREE_CLSTS]) then cnt else old(vol.fi[FREE_CLSTS])
      ensures vol.fi[FREE_CLSTS] == old(vol.fi[FREE_CLSTS]) - done
      ensures inode.blocks == old(inode.blocks) + done && |got| == done
      ensures files == old(files)[inode.ino := old(files[inode.ino]) + got]
      ensures WereFree(old(vol.fat.entries), vol.TotalDatClst(), reserved, got)
      ensures OnlyLinked(old(vol.fat.entries), vol.fat.entries, old(files[inode.ino]), got)
    {
      hide FsInfoOk, Zeros, FatSized, AllChains, Separate, Covered, CopyLayout, Mirrored, Holds, InFatRegion;
      Widen(inode, cnt);
      done, got := 0, [];
      ghost var entries := vol.fat.entries;
      ghost var chain := files[inode.ino];
      TableIsChain(inode);
      assert chain + [] == chain;
      label widened:
      while done < cnt
        modifies vol.fat`fatSectOff, vol.fat`entries, vol.fat.buf, vol.fat.disk, vol.fi,
                 inode`blocks, inode.aPage, `files
        invariant Valid() && Ready(reserved)
        invariant done <= cnt && Enough(cnt - done) && inode.blocks == old@widened(inode.blocks) + done
        invariant vol.fi[FREE_CLSTS] == old(vol.fi[FREE_CLSTS]) - done
        invariant |got| == done && files == old(files)[inode.ino := chain + got]
        invariant WereFree(entries, vol.TotalDatClst(), reserved, got)
        invariant NoneFreed(entries, vol.fat.entries) && OnlyLinked(entries, vol.fat.entries, chain, got)
      {
        ghost var c, before := vol.fi[NEXT_FREE_CLST], vol.fat.entries;
        TableIsChain(inode);
        ghost var last := inode.aPage[inode.blocks - 1];
        var ok := GrowOne(inode, reserved);
        if !ok {
          break;
        }
        GrownNotFreed(entries, before, last, c);
        LinkedOnce(entries, before, chain, got, c);
        assert chain + got + [c] == chain + (got + [c]);
        got := got + [c];
        done := done + 1;
      }
    }

    /** `fat32_bmap`: the cluster of file page `vpn`; pages past the end are created first, or -1 if they cannot be. */
    method Bmap(inode: Inode, vpn: u32) returns (ppn: Option<u32>)
      requires Valid() && inode in live && Ready({}) && (vpn >= inode.blocks ==> Enough(vpn - inode.blocks + 1))
      modifies vol.fat`fatSectOff, vol.fat`entries, vol.fat.buf, vol.fat.disk, vol.fi,
               inode`blocks, inode`aPage, `files
      ensures Valid() && Ready({})
      ensures files.Keys == old(files).Keys && forall h :: h in files && h != inode.ino ==> files[h] == old(files)[h]
      ensures old(files[inode.ino]) <= files[inode.ino]
      ensures ppn.Some? <==> vpn < old(inode.blocks) + old(vol.fi[FREE_CLSTS])
      ensures ppn.Some? ==> vpn < |files[inode.ino]| && ppn.value == files[inode.ino][vpn]
      ensures |files[inode.ino]| == if vpn < old(inode.blocks) then old(inode.blocks)
                                    else if ppn.Some? then vpn + 1
                                    else old(inode.blocks) + old(vol.fi[FREE_CLSTS])
    {
      hide FsInfoOk, Zeros, FatSized, AllChains, Separate, Covered, CopyLayout, Mirrored, Holds, InFatRegion;
      assert Agrees(inode);
      if vpn >= inode.blocks {
        var cnt := vpn - inode.blocks + 1;
        var done, got := CreatePage(inode, cnt, {});
        assert Agrees(inode);
        if done != cnt {
          return None;
        }
      }
      return Some(inode.aPage[vpn]);
    }

    /**
     * `fat32_fill_mapping`: follow the chain from `ino` through a table that doubles when it is full.  The result's
     * page table is exactly the chain on the disk.
     */
    method FillMapping(ino: u32) returns (inode: Inode)
      requires Valid() && ino in files && forall n :: n in live ==> n.ino != ino
      modifies vol.fat`fatSectOff, vol.fat.buf, vol.fat.disk, `live
      ensures Valid() && fresh(inode) && live == old(live) + {inode}
      ensures inode.ino == ino && inode.blocks == |files[ino]| == inode.aPage.Length
      ensures vol.fat.disk.sectors == old(vol.fat.disk.sectors)
    {
      ghost var chain := files[ino];
      assert IsChain(vol.fat.entries, chain);
      hide IsChain, FatSized, AllChains, Separate, Covered, CopyLayout, Mirrored, Holds, InFatRegion;
      var table, size := ReadChain(ino, chain);
      var aPage := CopyTable(table, size, size);
      inode := new Inode(ino, size, aPage);
      Admit(inode);
    }

    /** An inode whose table agrees with an unloaded file joins the live ones. */
    ghost method Admit(inode: Inode)
      requires Valid() && Agrees(inode) && inode !in live
      requires forall n :: n in live ==> n.ino != inode.ino && n.aPage != inode.aPage
      modifies `live
      ensures Valid() && live == old(live) + {inode}
    {
      hide WellFormed, Volume.Valid;
      live := live + {inode};
      forall n | n in old(live)
        ensures Agrees(n)
      {
        assert old(Agrees(n));
      }
    }

    /** The loop of `fat32_fill_mapping`. */
    method ReadChain(ino: u32, ghost chain: seq<u32>) returns (table: array<u32>, size: nat)
      requires vol.Valid() && FatSized(vol.fat.entries) && IsChain(vol.fat.entries, chain)
      requires chain != [] && chain[0] == ino
      modifies vol.fat`fatSectOff, vol.fat.buf, vol.fat.disk
      ensures vol.Valid() && fresh(table) && vol.fat.disk.sectors == old(vol.fat.disk.sectors)
      ensures size == |chain| <= table.Length && table[..size] == chain
    {
      hide IsChain, FatSized, CopyLayout, Mirrored, Holds, InFatRegion;
      ChainStep(vol.fat.entries, chain, 0);
      var capacity := 10;
      var clst := ino;
      table := new u32[capacity];
      size := 0;
      while true
        modifies vol.fat`fatSectOff, vol.fat.buf, vol.fat.disk, table
        invariant vol.Valid() && vol.fat.disk.sectors == old(vol.fat.disk.sectors)
        invariant fresh(table) && 0 < capacity == table.Length
        invariant size < |chain| && size <= capacity && table[..size] == chain[..size] && clst == chain[size]
        decreases |chain| - size
      {
        if size == capacity {
          capacity := capacity * 2;
          table := CopyTable(table, capacity / 2, capacity);
        }
        table[size] := clst;
        assert table[..size + 1] == chain[..size + 1];
        size := size + 1;
        ChainStep(vol.fat.entries, chain, size - 1);
        clst := vol.ReadFat(clst);
        if clst == END_OF_CHAIN {
          break;
        }
      }
      assert chain[..size] == chain;
    }

    /** The loop of `fat32_deleteinode` over the page table. */
    method RetakeAll(inode: Inode, ghost chain: seq<u32>)
      requires vol.Valid() && inode.aPage !in vol.Repr()
      requires inode.blocks <= inode.aPage.Length && inode.aPage[..inode.blocks] == chain
      requires forall c: u32 :: c in chain ==> 2 <= c < |vol.fat.entries|
      modifies vol.fat`fatSectOff, vol.fat`entries, vol.fat.buf, vol.fat.disk, vol.fi
      ensures vol.Valid() && vol.fat.entries == Cleared(old(vol.fat.entries), chain)
      ensures vol.fi[FREE_CLSTS] == Add32(old(vol.fi[FREE_CLSTS]), |chain|)
      ensures vol.fi[NEXT_FREE_CLST] == ClearedHint(old(vol.fi[NEXT_FREE_CLST]), chain)
    {
      ghost var entries := vol.fat.entries;
      ghost var free, hint := vol.fi[FREE_CLSTS], vol.fi[NEXT_FREE_CLST];
      var i := 0;
      assert Cleared(entries, chain[..0]) == entries;
      assert ClearedHint(hint, chain[..0]) == hint;
      assert Add32(free, 0) == free;
      hide CopyLayout, Mirrored, Holds, InFatRegion, Cleared, ClearedHint, Add32;
      while i < inode.blocks
        invariant i <= inode.blocks && inode.aPage[..inode.blocks] == chain
        invariant vol.Valid() && vol.fat.entries == Cleared(entries, chain[..i])
        invariant vol.fi[FREE_CLSTS] == Add32(free, i)
        invariant vol.fi[NEXT_FREE_CLST] == ClearedHint(hint, chain[..i])
      {
        var clst := inode.aPage[i];
        assert clst == chain[i] && clst in chain;
        ClearedStep(entries, chain, i);
        Add32Step(free, i);
        vol.RetakeFat(clst);
        i := i + 1;
      }
      assert chain[..i] == chain;
    }

    /**
     * The FAT part of `fat32_deleteinode`: every cluster of the file is free again, no other file changes, and
     * FSINFO stays correct exactly under the condition of RetakeAllKeepsIff.  What the count misses or has too many
     * changes by the clusters that the search does not see.
     */
    method DropFile(inode: Inode)
      requires Valid() && inode in live
      modifies vol.fat`fatSectOff, vol.fat`entries, vol.fat.buf, vol.fat.disk, vol.fi, `files, `live, `lost
      ensures Valid() && live == old(live) - {inode}
      ensures files == old(files) - {inode.ino}
      ensures lost == LostAfter(old(lost), old(vol.fi[FREE_CLSTS]), old(files[inode.ino]), vol.TotalDatClst())
      ensures vol.fat.entries == Cleared(old(vol.fat.entries), old(files[inode.ino]))
      ensures vol.fi[FREE_CLSTS] == Add32(old(vol.fi[FREE_CLSTS]), old(inode.blocks))
      ensures vol.fi[NEXT_FREE_CLST] == ClearedHint(old(vol.fi[NEXT_FREE_CLST]), old(files[inode.ino]))
      ensures old(Ready({})) ==> (Ready({}) <==> old(Returnable(inode)))
    {
      hide CopyLayout, Mirrored, Holds, InFatRegion, FsInfoOk, Distinct, RetakeOk, Cleared, ClearedHint,
           LostAfter, Add32, FileSystem.Mapped, FatBuffer.Valid, FatSized, AllChains, Separate, Covered;
      TableIsChain(inode);
      ghost var free: u32, chain := vol.fi[FREE_CLSTS], files[inode.ino];
      DropFacts(vol.fat.entries, files, foreign, inode.ino);
      ReadyAfterRetake(vol.fat.entries, vol.TotalDatClst(), lost, free, vol.fi[NEXT_FREE_CLST], chain);
      GiveBack(inode);
      lost := LostAfter(lost, free, chain, vol.TotalDatClst());
      Evict(inode);
    }

    /** The clusters of an open file go back; the page tables stay. */
    method GiveBack(inode: Inode)
      requires Valid() && inode in live
      modifies vol.fat`fatSectOff, vol.fat`entries, vol.fat.buf, vol.fat.disk, vol.fi
      ensures vol.Valid() && Mapped() && inode.ino in files
      ensures vol.fat.entries == Cleared(old(vol.fat.entries), files[inode.ino])
      ensures vol.fi[FREE_CLSTS] == Add32(old(vol.fi[FREE_CLSTS]), inode.blocks)
      ensures vol.fi[NEXT_FREE_CLST] == ClearedHint(old(vol.fi[NEXT_FREE_CLST]), files[inode.ino])
      ensures inode.blocks == |files[inode.ino]|
    {
      hide WellFormed, CopyLayout, Mirrored, Holds, InFatRegion, Cleared, ClearedHint, Add32;
      assert Agrees(inode);
      DropFacts(vol.fat.entries, files, foreign, inode.ino);
      RetakeAll(inode, files[inode.ino]);
    }

    ghost method Evict(inode: Inode)
      requires Mapped() && inode in live
      modifies `files, `live
      ensures Mapped() && live == old(live) - {inode} && files == old(files) - {inode.ino}
    {
      live := live - {inode};
      files := files - {inode.ino};
      forall n | n in live
        ensures Agrees(n)
      {
        assert old(Agrees(n));
      }
    }

    /** `apply_fat` for a new file: the cluster that becomes the file's number is reserved, not yet marked. */
    method Reserve() returns (r: Option<u32>)
      requires Valid() && Ready({}) && Enough(1)
      modifies vol.fat`fatSectOff, vol.fat.buf, vol.fat.disk, vol.fi
      ensures Valid() && vol.fat.entries == old(vol.fat.entries)
      ensures r.None? <==> old(vol.fi[FREE_CLSTS]) == 0
      ensures r.None? ==> Ready({}) && vol.fi[..] == old(vol.fi[..])
      ensures r.Some? ==>
        && 2 <= r.value < vol.TotalDatClst() && vol.fat.entries[r.value] == 0
        && vol.fi[FREE_CLSTS] == old(vol.fi[FREE_CLSTS]) - 1 && Ready({r.value as nat})
    {
      hide FsInfoOk, Zeros, FatSized, AllChains, Separate, Covered, CopyLayout, Mirrored, Holds, InFatRegion;
      r := vol.Take({}, lost);
      if r.Some? {
        assert {} + {r.value as nat} == {r.value as nat};
      }
    }

    /** The tail of `fat32_createinode`: the reserved cluster becomes the new file's only cluster. */
    method InstallFile(p: u32) returns (inode: Inode)
      requires Valid() && Ready({p as nat})
      requires 2 <= p < vol.TotalDatClst() && vol.fat.entries[p] == 0
      modifies vol.fat`fatSectOff, vol.fat`entries, vol.fat.buf, vol.fat.disk, `files, `live
      ensures Valid() && Ready({}) && fresh(inode) && live == old(live) + {inode}
      ensures old(p !in files) && files == old(files)[p := [p]]
      ensures inode.ino == p && inode.blocks == 1
      ensures vol.fat.entries == old(vol.fat.entries)[p := END_OF_CHAIN]
    {
      hide WellFormed, CopyLayout, Mirrored, Holds, InFatRegion, FsInfoOk, FileSystem.Mapped, FatBuffer.Valid;
      CreateKeeps(vol.fat.entries, files, foreign, p);
      EndNew(p);
      var aPage := new u32[1];
      aPage[0] := p;
      assert aPage[..1] == [p];
      inode := new Inode(p, 1, aPage);
      AdmitNew(inode);
    }

    /** The reserved cluster becomes the end of a chain. */
    method EndNew(p: u32)
      requires vol.Valid() && Ready({p as nat}) && Mapped()
      requires 2 <= p < vol.TotalDatClst() && vol.fat.entries[p] == 0
      modifies vol.fat`fatSectOff, vol.fat`entries, vol.fat.buf, vol.fat.disk
      ensures vol.Valid() && Ready({}) && Mapped() && vol.fat.entries == old(vol.fat.entries)[p := END_OF_CHAIN]
    {
      hide FsInfoOk, Volume.HintMoved;
      assert {} + {p as nat} == {p as nat};
      HeldAlone(p);
      vol.MarkEnd(p, {}, lost);
    }

    /** A cluster that is reserved alone is the hint only if no other one is free. */
    lemma HeldAlone(p: u32)
      requires vol.Valid() && Ready({p as nat})
      ensures vol.HintMoved(p)
    {
      var zs := Zeros(vol.fat.entries, vol.TotalDatClst());
      if zs - {p as nat} == {} {
        assert zs == {p as nat};
      }
    }

    ghost method AdmitNew(inode: Inode)
      requires Mapped() && inode.ino !in files && inode !in live
      requires inode.blocks <= inode.aPage.Length && inode.aPage !in vol.Repr()
      requires forall n :: n in live ==> n.aPage != inode.aPage
      modifies `files, `live
      ensures Mapped() && live == old(live) + {inode} && files == old(files)[inode.ino := inode.aPage[..inode.blocks]]
    {
      live := live + {inode};
      files := files[inode.ino := inode.aPage[..inode.blocks]];
      forall n | n in old(live)
        ensures Agrees(n)
      {
        assert old(Agrees(n));
      }
    }

    /** `fat32_createinode` gave up after `apply_fat`: the cluster stays free but is never counted again. */
    ghost method Abandon(p: u32)
      requires Valid() && Ready({p as nat})
      modifies `lost
      ensures Valid() && Ready({}) && lost == old(lost) + 1
    {
      AbandonLoses(vol.fat.entries, vol.TotalDatClst(), lost, vol.fi[FREE_CLSTS], vol.fi[NEXT_FREE_CLST], p);
      lost := lost + 1;
    }
  }

  lemma DropFacts(entries: seq<u32>, files: map<u32, seq<u32>>, foreign: set<u32>, h: u32)
    requires WellFormed(entries, files, foreign) && h in files
    ensures |entries| < 0x1000_0000 && files[h] != [] && Distinct(files[h])
    ensures forall c: u32 :: c in files[h] ==> 2 <= c < |entries| && entries[c] != 0
    ensures WellFormed(Cleared(entries, files[h]), files - {h}, foreign)
  {
    ChainClustersUsed(entries, files[h]);
    ChainIsAcyclic(entries, files[h]);
    DeleteKeeps(entries, files, foreign, h);
  }

  /** The clusters of `got` are data clusters of the searched range that were free and not reserved. */
  ghost predicate WereFree(entries: seq<u32>, total: nat, reserved: set<nat>, got: seq<u32>) {
    && total <= |entries|
    && forall c: u32 :: c in got ==> 2 <= c < total && entries[c] == 0 && c as nat !in reserved
  }

  lemma GrownNotFreed(first: seq<u32>, before: seq<u32>, last: u32, c: u32)
    requires NoneFreed(first, before) && 2 <= c < |before| && last < |before|
    ensures NoneFreed(first, before[last := c][c := END_OF_CHAIN])
  {
  }

  /** The only entries that changed are the last one of `chain` and those of the clusters `got` behind it. */
  ghost predicate OnlyLinked(before: seq<u32>, after: seq<u32>, chain: seq<u32>, got: seq<u32>) {
    && |after| == |before| && chain != []
    && forall c :: 0 <= c < |before| && c != Last(chain) && c !in got ==> after[c] == before[c]
  }

  lemma LinkedOnce(first: seq<u32>, before: seq<u32>, chain: seq<u32>, got: seq<u32>, c: u32)
    requires OnlyLinked(first, before, chain, got) && 2 <= c < |before| && Last(chain + got) < |before|
    ensures OnlyLinked(first, before[Last(chain + got) := c][c := END_OF_CHAIN], chain, got + [c])
  {
    assert Last(chain + got) == if got == [] then Last(chain) else Last(got);
  }

  /** No used entry became free. */
  ghost predicate NoneFreed(before: seq<u32>, after: seq<u32>) {
    && |after| == |before|
    && forall c :: 0 <= c < |after| && after[c] == 0 ==> before[c] == 0
  }
}
