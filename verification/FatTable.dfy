/**
 * The FAT behind its one-sector write-through buffer (kernel/vfs/fat32.c: fat32_init's layout loop,
 * write_fat, read_fat).  A sector is seen as its 128 little-endian words; block I/O succeeds.
 */
module FatTable {
  import opened Common

  const ENTRIES_PER_SECT := 128

  /** Cluster numbers lie below the end mark 0x0fffffff, so `clst_no * 4` never wraps. */
  const MAX_SECTS_PER_FAT := 0x0fff_ffff / ENTRIES_PER_SECT

  type Sector = s: seq<u32> | |s| == ENTRIES_PER_SECT witness seq(ENTRIES_PER_SECT, _ => 0)

  class Disk {
    var sectors: seq<Sector>

    constructor (image: seq<Sector>)
      ensures sectors == image
    {
      sectors := image;
    }

    method ReadBlock(buf: array<u32>, base: nat)
      requires buf.Length == ENTRIES_PER_SECT && base < |sectors|
      modifies buf
      ensures buf[..] == sectors[base]
    {
      forall i | 0 <= i < buf.Length {
        buf[i] := sectors[base][i];
      }
    }

    method WriteBlock(buf: array<u32>, base: nat)
      requires buf.Length == ENTRIES_PER_SECT && base < |sectors|
      modifies this
      ensures sectors == old(sectors)[base := buf[..]]
    {
      sectors := sectors[base := buf[..]];
    }
  }

  /** `bases` are the first sectors of FAT copies of `size` sectors each, one after the other. */
  ghost predicate CopyLayout(bases: seq<nat>, size: nat, end: nat) {
    && |bases| > 0
    && (forall j, k :: 0 <= j < k < |bases| ==> bases[j] + size <= bases[k])
    && bases[|bases| - 1] + size <= end
  }

  /** Sector `k` belongs to some FAT copy. */
  ghost predicate InFatRegion(bases: seq<nat>, size: nat, k: nat) {
    exists j :: 0 <= j < |bases| && bases[j] <= k < bases[j] + size
  }

  /** The two disk images differ at most inside the FAT copies. */
  ghost predicate OutsideKept(before: seq<Sector>, after: seq<Sector>, bases: seq<nat>, size: nat) {
    && |after| == |before|
    && forall k :: 0 <= k < |after| && !InFatRegion(bases, size, k) ==> after[k] == before[k]
  }

  /** The runs of `size` sectors starting at `a` and at `b` have the same contents. */
  ghost predicate SameRun(sectors: seq<Sector>, a: nat, b: nat, size: nat) {
    && a + size <= |sectors|
    && b + size <= |sectors|
    && sectors[a..a + size] == sectors[b..b + size]
  }

  /** Every copy holds, sector for sector, what copy 0 holds. */
  ghost predicate Mirrored(sectors: seq<Sector>, bases: seq<nat>, size: nat) {
    forall j :: 0 <= j < |bases| ==> SameRun(sectors, bases[j], bases[0], size)
  }

  /** The first sectors of `n` copies laid out back to back from sector `first`. */
  ghost function CopyBases(first: nat, n: nat, size: nat): seq<nat> {
    seq(n, j requires 0 <= j => first + j * size)
  }

  lemma CopyBasesLayout(first: nat, n: nat, size: nat)
    requires n > 0
    ensures CopyLayout(CopyBases(first, n, size), size, first + n * size)
  {
    forall j, k | 0 <= j < k < n
      ensures CopyBases(first, n, size)[j] + size <= CopyBases(first, n, size)[k]
    {
      assert (j + 1) * size <= k * size;
    }
    assert (n - 1) * size + size == n * size;
  }

  lemma NextCopy(first: nat, i: nat, size: nat)
    requires i > 0
    ensures first + (i - 1) * size + size == first + i * size
  {
  }

  /** `entries` is the flat array of FAT entries that the copy starting at sector `base` holds. */
  ghost predicate Holds(sectors: seq<Sector>, base: nat, size: nat, entries: seq<u32>) {
    && base + size <= |sectors|
    && |entries| == size * ENTRIES_PER_SECT
    && forall c :: 0 <= c < |entries| ==>
      entries[c] == sectors[base + c / ENTRIES_PER_SECT][c % ENTRIES_PER_SECT]
  }

  /** `after` is `before` with sector `off` of every FAT copy replaced by `data`. */
  ghost predicate CopiesWritten(before: seq<Sector>, after: seq<Sector>, bases: seq<nat>, off: nat, data: seq<u32>) {
    && |after| == |before|
    && (forall j :: 0 <= j < |bases| ==> bases[j] + off < |after| && after[bases[j] + off] == data)
    && (forall k :: 0 <= k < |after| && (forall j :: 0 <= j < |bases| ==> k != bases[j] + off) ==>
         after[k] == before[k])
  }

  /** Copy `j` after the write. */
  lemma CopyRun(before: seq<Sector>, after: seq<Sector>, bases: seq<nat>, size: nat, off: nat, data: Sector, j: nat)
    requires CopyLayout(bases, size, |before|) && off < size && CopiesWritten(before, after, bases, off, data)
    requires j < |bases|
    ensures bases[j] + size <= |after| == |before|
    ensures after[bases[j]..bases[j] + size] == before[bases[j]..bases[j] + size][off := data]
  {
    var x, y := after[bases[j]..bases[j] + size], before[bases[j]..bases[j] + size];
    forall i | 0 <= i < size
      ensures x[i] == y[off := data][i]
    {
      if i != off {
        assert forall k :: 0 <= k < |bases| ==> bases[j] + i != bases[k] + off;
      }
    }
  }

  /** Writing one sector to every copy keeps the copies identical. */
  lemma CopiesStayMirrored(before: seq<Sector>, after: seq<Sector>, bases: seq<nat>, size: nat, off: nat,
                           data: Sector)
    requires CopyLayout(bases, size, |before|) && off < size && Mirrored(before, bases, size)
    requires CopiesWritten(before, after, bases, off, data)
    ensures Mirrored(after, bases, size)
  {
    forall j | 0 <= j < |bases|
      ensures SameRun(after, bases[j], bases[0], size)
    {
      assert SameRun(before, bases[j], bases[0], size);
      CopyRun(before, after, bases, size, off, data, j);
      CopyRun(before, after, bases, size, off, data, 0);
    }
  }

  /** Writing one sector to every copy changes exactly that sector's 128 entries. */
  lemma CopiesHold(before: seq<Sector>, after: seq<Sector>, bases: seq<nat>, size: nat, off: nat, data: Sector,
                   entries: seq<u32>, c: nat, v: u32)
    requires CopyLayout(bases, size, |before|) && off < size
    requires Holds(before, bases[0], size, entries)
    requires CopiesWritten(before, after, bases, off, data)
    requires c < |entries| && c / ENTRIES_PER_SECT == off
    requires data == before[bases[0] + off][c % ENTRIES_PER_SECT := v]
    ensures Holds(after, bases[0], size, entries[c := v])
  {
    assert |after| == |before|;
    hide CopyLayout, CopiesWritten;
    forall d | 0 <= d < |entries|
      ensures entries[c := v][d] == after[bases[0] + d / ENTRIES_PER_SECT][d % ENTRIES_PER_SECT]
    {
      FirstCopySector(before, after, bases, size, off, data, d / ENTRIES_PER_SECT);
    }
  }

  /** Sector `i` of the first copy after the write. */
  lemma FirstCopySector(before: seq<Sector>, after: seq<Sector>, bases: seq<nat>, size: nat, off: nat, data: Sector,
                        i: nat)
    requires CopyLayout(bases, size, |before|) && off < size && CopiesWritten(before, after, bases, off, data)
    requires i < size
    ensures bases[0] + i < |after| == |before|
    ensures after[bases[0] + i] == if i == off then data else before[bases[0] + i]
  {
    CopyRun(before, after, bases, size, off, data, 0);
    hide CopyLayout, CopiesWritten;
    assert after[bases[0]..bases[0] + size][i] == after[bases[0] + i];
    assert before[bases[0]..bases[0] + size][i] == before[bases[0] + i];
  }

  /** A write to every copy stays inside the FAT regions. */
  lemma CopiesStayInside(before: seq<Sector>, after: seq<Sector>, bases: seq<nat>, size: nat, off: nat, data: seq<u32>)
    requires off < size && CopiesWritten(before, after, bases, off, data)
    ensures OutsideKept(before, after, bases, size)
  {
    forall k | 0 <= k < |after| && !InFatRegion(bases, size, k)
      ensures after[k] == before[k]
    {
      assert forall j :: 0 <= j < |bases| ==> k != bases[j] + off;
    }
  }

  /** All that follows from writing a sector with one changed entry to every copy. */
  lemma EntryWritten(before: seq<Sector>, after: seq<Sector>, bases: seq<nat>, size: nat, off: nat,
                     entries: seq<u32>, c: nat, v: u32)
    requires CopyLayout(bases, size, |before|) && off < size && Mirrored(before, bases, size)
    requires Holds(before, bases[0], size, entries) && c < |entries| && c / ENTRIES_PER_SECT == off
    requires CopiesWritten(before, after, bases, off, before[bases[0] + off][c % ENTRIES_PER_SECT := v])
    ensures Mirrored(after, bases, size) && Holds(after, bases[0], size, entries[c := v])
    ensures OutsideKept(before, after, bases, size)
    ensures |after| == |before| && bases[0] + off < |after|
    ensures after[bases[0] + off] == before[bases[0] + off][c % ENTRIES_PER_SECT := v]
  {
    var data := before[bases[0] + off][c % ENTRIES_PER_SECT := v];
    CopiesStayMirrored(before, after, bases, size, off, data);
    CopiesHold(before, after, bases, size, off, data, entries, c, v);
    CopiesStayInside(before, after, bases, size, off, data);
  }

  /** A write outside the FAT regions leaves the FAT copies as they were. */
  lemma OutsideWriteKeepsFat(before: seq<Sector>, after: seq<Sector>, bases: seq<nat>, size: nat, entries: seq<u32>)
    requires CopyLayout(bases, size, |before|) && |after| == |before|
    requires forall k :: 0 <= k < |after| && InFatRegion(bases, size, k) ==> after[k] == before[k]
    requires Mirrored(before, bases, size) && Holds(before, bases[0], size, entries)
    ensures Mirrored(after, bases, size) && Holds(after, bases[0], size, entries)
  {
    forall j | 0 <= j < |bases|
      ensures after[bases[j]..bases[j] + size] == before[bases[j]..bases[j] + size]
    {
      var x, y := after[bases[j]..bases[j] + size], before[bases[j]..bases[j] + size];
      forall s | 0 <= s < size
        ensures x[s] == y[s]
      {
        assert InFatRegion(bases, size, bases[j] + s);
      }
    }
    forall j | 0 <= j < |bases|
      ensures SameRun(after, bases[j], bases[0], size)
    {
      assert SameRun(before, bases[j], bases[0], size);
    }
    forall c | 0 <= c < |entries|
      ensures entries[c] == after[bases[0] + c / ENTRIES_PER_SECT][c % ENTRIES_PER_SECT]
    {
      assert InFatRegion(bases, size, bases[0] + c / ENTRIES_PER_SECT);
    }
  }

  /** `struct fat32_ext_sb` and `struct fat32_fattable`: where the FAT copies are, and the buffered sector. */
  class FatBuffer {
    const disk: Disk
    const fatBaseSect: array<nat>
    const sectsPerFat: nat
    var fatSectOff: nat
    var dirty: bool
    const buf: array<u32>
    /** The first sector of every FAT copy, as mathematics. */
    ghost const bases: seq<nat>
    /** The flat FAT that the sectors refine. */
    ghost var entries: seq<u32>

    ghost predicate Valid()
      reads this, disk, fatBaseSect, buf
    {
      && buf.Length == ENTRIES_PER_SECT
      && sectsPerFat <= MAX_SECTS_PER_FAT
      && fatBaseSect[..] == bases
      && CopyLayout(bases, sectsPerFat, |disk.sectors|)
      && Mirrored(disk.sectors, bases, sectsPerFat)
      && Holds(disk.sectors, bases[0], sectsPerFat, entries)
      && fatSectOff < sectsPerFat
      && buf[..] == disk.sectors[bases[0] + fatSectOff]
    }

    /** The layout part of `fat32_init`: copy `i` starts where copy `i - 1` ends; sector 0 is buffered. */
    constructor (disk: Disk, baseSect: nat, reservedSects: nat, totalFats: nat, sectsPerFat: nat, ghost image: seq<u32>)
      requires totalFats > 0 && 0 < sectsPerFat <= MAX_SECTS_PER_FAT
      requires reservedSects + baseSect + totalFats * sectsPerFat <= |disk.sectors|
      requires Mirrored(disk.sectors, CopyBases(reservedSects + baseSect, totalFats, sectsPerFat), sectsPerFat)
      requires Holds(disk.sectors, reservedSects + baseSect, sectsPerFat, image)
      ensures Valid() && fresh(buf) && fresh(fatBaseSect)
      ensures entries == image && this.disk == disk && this.sectsPerFat == sectsPerFat
      ensures bases == CopyBases(reservedSects + baseSect, totalFats, sectsPerFat)
    {
      this.disk := disk;
      this.sectsPerFat := sectsPerFat;
      fatBaseSect := new nat[totalFats];
      fatSectOff := 0;
      dirty := false;
      buf := new u32[ENTRIES_PER_SECT];
      entries := image;
      bases := CopyBases(reservedSects + baseSect, totalFats, sectsPerFat);
      new;
      CopyBasesLayout(reservedSects + baseSect, totalFats, sectsPerFat);
      fatBaseSect[0] := reservedSects + baseSect;
      var i := 1;
      while i < totalFats
        modifies fatBaseSect
        invariant 1 <= i <= totalFats
        invariant forall j :: 0 <= j < i ==> fatBaseSect[j] == bases[j]
      {
        fatBaseSect[i] := fatBaseSect[i - 1] + sectsPerFat;
        NextCopy(reservedSects + baseSect, i, sectsPerFat);
        i := i + 1;
      }
      assert fatBaseSect[..] == bases;
      disk.ReadBlock(buf, fatBaseSect[0]);
    }

    /** The write-back loop: the buffered sector goes to every copy. */
    method WriteBack()
      requires buf.Length == ENTRIES_PER_SECT && fatSectOff < sectsPerFat
      requires fatBaseSect[..] == bases && CopyLayout(bases, sectsPerFat, |disk.sectors|)
      modifies disk
      ensures CopiesWritten(old(disk.sectors), disk.sectors, bases, fatSectOff, buf[..])
    {
      var j := 0;
      while j < fatBaseSect.Length
        invariant 0 <= j <= fatBaseSect.Length
        invariant |disk.sectors| == |old(disk.sectors)|
        invariant forall i :: 0 <= i < j ==> disk.sectors[bases[i] + fatSectOff] == buf[..]
        invariant forall k :: 0 <= k < |disk.sectors| && (forall i :: 0 <= i < j ==> k != bases[i] + fatSectOff) ==>
          disk.sectors[k] == old(disk.sectors)[k]
      {
        disk.WriteBlock(buf, fatBaseSect[j] + fatSectOff);
        j := j + 1;
      }
    }

    /** `write_fat`: load the sector of cluster `c` if it is not the buffered one, set the entry, write through. */
    method WriteFat(c: nat, v: u32)
      requires Valid() && c < |entries|
      modifies this`fatSectOff, this`entries, buf, disk
      ensures Valid() && entries == old(entries)[c := v]
      ensures OutsideKept(old(disk.sectors), disk.sectors, bases, sectsPerFat)
    {
      Load(c * 4 / 512);
      StoreEntry(c, v);
    }

    /** The second half of `write_fat`: the entry's sector is buffered; set the entry and write through. */
    method StoreEntry(c: nat, v: u32)
      requires Valid() && c < |entries| && fatSectOff == c / ENTRIES_PER_SECT
      modifies this`entries, buf, disk
      ensures Valid() && entries == old(entries)[c := v]
      ensures OutsideKept(old(disk.sectors), disk.sectors, bases, sectsPerFat)
    {
      hide CopyLayout, Mirrored, Holds, CopiesWritten, OutsideKept;
      ghost var before, was := disk.sectors, buf[..];
      buf[c % ENTRIES_PER_SECT] := v;
      assert buf[..] == was[c % ENTRIES_PER_SECT := v];
      WriteBack();
      EntryWritten(before, disk.sectors, bases, sectsPerFat, fatSectOff, entries, c, v);
      entries := entries[c := v];
    }

    /** `read_fat`: the same loading step, then the entry.  Entries and sectors stay as they are. */
    method ReadFat(c: nat) returns (v: u32)
      requires Valid() && c < |entries|
      modifies this`fatSectOff, buf, disk
      ensures Valid() && v == entries[c]
      ensures disk.sectors == old(disk.sectors)
    {
      Load(c * 4 / 512);
      v := buf[c * 4 % 512 / 4];
    }

    /** The step that `read_fat` and `write_fat` share: make sector `off` of the FAT the buffered one. */
    method Load(off: nat)
      requires Valid() && off < sectsPerFat
      modifies this`fatSectOff, buf, disk
      ensures Valid() && fatSectOff == off && disk.sectors == old(disk.sectors)
    {
      if fatSectOff != off {
        if dirty {
          WriteBack();
          CleanWriteBack(old(disk.sectors), disk.sectors, bases, sectsPerFat, fatSectOff, buf[..]);
        }
        fatSectOff := off;
        disk.ReadBlock(buf, fatBaseSect[0] + off);
      }
    }
  }

  /** Writing back a buffer that equals its sector changes nothing, whatever `dirty` says. */
  lemma CleanWriteBack(before: seq<Sector>, after: seq<Sector>, bases: seq<nat>, size: nat, off: nat, data: seq<u32>)
    requires CopyLayout(bases, size, |before|) && off < size && Mirrored(before, bases, size)
    requires CopiesWritten(before, after, bases, off, data) && data == before[bases[0] + off]
    ensures after == before
  {
    forall k | 0 <= k < |after|
      ensures after[k] == before[k]
    {
      if j :| 0 <= j < |bases| && k == bases[j] + off {
        assert SameRun(before, bases[j], bases[0], size);
        assert before[bases[j]..bases[j] + size][off] == before[bases[0]..bases[0] + size][off];
      }
    }
  }
}
