/** A mounted volume: the buffered FAT plus the buffered FSINFO sector, and the two allocation routines over them. */
module VolumeModule {
  import opened Common
  import opened FatTable
  import opened FreeSpace
  import opened Chains

  /** Word offsets of `free_clsts` (byte 0x1e8) and `next_free_clst` in the FSINFO sector. */
  const FREE_CLSTS := 0x1e8 / 4
  const NEXT_FREE_CLST := 0x1e8 / 4 + 1

  class Volume {
    const fat: FatBuffer
    const fi: array<u32>
    const sBase: nat
    const fsinfoBaseSect: nat
    const totalSects: nat
    const dataClstSect: nat
    const sectsPerClst: nat

    constructor (fat: FatBuffer, sBase: nat, fsinfoBaseSect: nat, totalSects: nat, dataClstSect: nat, sectsPerClst: nat)
      requires fat.Valid()
      requires sectsPerClst > 0 && sBase <= dataClstSect <= totalSects + sBase
      requires 2 < (totalSects - (dataClstSect - sBase)) / sectsPerClst <= |fat.entries|
      requires sBase + fsinfoBaseSect < |fat.disk.sectors|
      requires !InFatRegion(fat.bases, fat.sectsPerFat, sBase + fsinfoBaseSect)
      requires fat.entries[0] != 0 && fat.entries[1] != 0
      ensures Valid() && fresh(fi) && this.fat == fat
      ensures fi[..] == fat.disk.sectors[sBase + fsinfoBaseSect]
    {
      this.fat := fat;
      this.sBase := sBase;
      this.fsinfoBaseSect := fsinfoBaseSect;
      this.totalSects := totalSects;
      this.dataClstSect := dataClstSect;
      this.sectsPerClst := sectsPerClst;
      fi := new u32[ENTRIES_PER_SECT];
      new;
      fat.disk.ReadBlock(fi, sBase + fsinfoBaseSect);
    }

    /** `total_dat_clst`: the bound of the search (clusters are numbered from 2, the search runs over [0, total)). */
    function TotalDatClst(): nat
      requires sectsPerClst > 0 && sBase <= dataClstSect <= totalSects + sBase
    {
      (totalSects - (dataClstSect - sBase)) / sectsPerClst
    }

    /** Cluster `c` lies whole in the data area, if that began with cluster 0. */
    predicate Whole(c: nat) {
      (c + 1) * sectsPerClst <= totalSects - (dataClstSect - sBase)
    }

    /** The search takes the data area to begin with cluster 0, and looks at all that lie whole in it. */
    lemma SearchedIff(c: nat)
      requires sectsPerClst > 0 && sBase <= dataClstSect <= totalSects + sBase
      ensures c < TotalDatClst() <==> Whole(c)
      ensures TotalDatClst() * sectsPerClst <= totalSects - (dataClstSect - sBase) < (TotalDatClst() + 1) * sectsPerClst
    {
      var t := TotalDatClst();
      if c < t {
        assert (c + 1) * sectsPerClst <= t * sectsPerClst;
      } else {
        assert (t + 1) * sectsPerClst <= (c + 1) * sectsPerClst;
      }
    }

    ghost function Repr(): set<object> {
      {fat, fat.disk, fat.buf, fat.fatBaseSect, fi}
    }

    ghost predicate Shape()
      reads Repr()
    {
      && fat.Valid()
      && fi.Length == ENTRIES_PER_SECT && fi != fat.buf
      && sectsPerClst > 0 && sBase <= dataClstSect <= totalSects + sBase
      && 2 < TotalDatClst() <= |fat.entries|
      && fat.entries[0] != 0 && fat.entries[1] != 0
      && sBase + fsinfoBaseSect < |fat.disk.sectors|
      && !InFatRegion(fat.bases, fat.sectsPerFat, sBase + fsinfoBaseSect)
    }

    /** The FAT buffer is in order, the two reserved entries are in use, and the FSINFO buffer equals its sector. */
    ghost predicate Valid()
      reads Repr()
    {
      Shape() && fi[..] == fat.disk.sectors[sBase + fsinfoBaseSect]
    }

    /** The book-keeping of the FSINFO sector agrees with the FAT. */
    ghost predicate InfoOk(reserved: set<nat>, lost: int)
      requires Valid()
      reads Repr()
    {
      FsInfoOk(fat.entries, TotalDatClst(), reserved, lost, fi[FREE_CLSTS], fi[NEXT_FREE_CLST])
    }

    /** The hint names another cluster than `c`, unless there is no other. */
    ghost predicate HintMoved(c: u32)
      requires Valid()
      reads Repr()
    {
      fi[NEXT_FREE_CLST] == c ==> Zeros(fat.entries, TotalDatClst()) == {c as nat}
    }

    /**
     * Of the free clusters that lie whole in the data area, `i` is the least one above `hint`, or the least of all if
     * none is above.
     */
    ghost predicate NextFree(hint: nat, i: nat)
      requires Valid()
      reads Repr()
    {
      && i < |fat.entries| && fat.entries[i] == 0 && Whole(i)
      && forall z :: 0 <= z < |fat.entries| && fat.entries[z] == 0 && Whole(z) ==>
           if hint < z then hint < i <= z else hint < i || i <= z
    }

    /** The first free cluster that the cyclic scan meets is that one. */
    lemma FirstZeroIsNextFree(hint: nat, i: nat)
      requires Valid() && FirstZeroFrom(fat.entries, TotalDatClst(), ScanStart(TotalDatClst(), hint), i)
      ensures NextFree(hint, i)
    {
      SearchedIff(i);
      hide TotalDatClst;
      forall z | 0 <= z < |fat.entries| && fat.entries[z] == 0 && Whole(z)
        ensures if hint < z then hint < i <= z else hint < i || i <= z
      {
        SearchedIff(z);
        assert z in Zeros(fat.entries, TotalDatClst());
      }
    }

    /** Update the two FSINFO fields and write the sector back; no other sector changes. */
    method StoreInfo(free: u32, hint: u32)
      requires Valid()
      modifies fat.disk, fi
      ensures Valid()
      ensures fi[..] == old(fi[..])[FREE_CLSTS := free][NEXT_FREE_CLST := hint] && fi[122] == free && fi[123] == hint
      ensures fat.disk.sectors == old(fat.disk.sectors)[sBase + fsinfoBaseSect := fi[..]]
    {
      fi[FREE_CLSTS] := free;
      fi[NEXT_FREE_CLST] := hint;
      fat.disk.WriteBlock(fi, sBase + fsinfoBaseSect);
      OutsideWriteKeepsFat(old(fat.disk.sectors), fat.disk.sectors, fat.bases, fat.sectsPerFat, fat.entries);
      assert InFatRegion(fat.bases, fat.sectsPerFat, fat.bases[0] + fat.fatSectOff);
    }

    method ReadFat(c: nat) returns (v: u32)
      requires Valid() && c < |fat.entries|
      modifies fat`fatSectOff, fat.buf, fat.disk
      ensures Valid() && v == fat.entries[c] && fat.disk.sectors == old(fat.disk.sectors)
    {
      v := fat.ReadFat(c);
    }

    method WriteFat(c: nat, v: u32)
      requires Valid() && c < |fat.entries| && (v != 0 || c >= 2)
      modifies fat`fatSectOff, fat`entries, fat.buf, fat.disk
      ensures Valid() && fat.entries == old(fat.entries)[c := v]
    {
      fat.WriteFat(c, v);
    }

    /** The search loop of `apply_fat`. */
    method SearchFree(hint: u32) returns (i: u32)
      requires Valid() && Zeros(fat.entries, TotalDatClst()) != {}
      modifies fat`fatSectOff, fat.buf, fat.disk
      ensures Valid() && fat.disk.sectors == old(fat.disk.sectors)
      ensures FirstZeroFrom(fat.entries, TotalDatClst(), ScanStart(TotalDatClst(), hint), i) && NextFree(hint, i)
    {
      var total := TotalDatClst();
      var j := hint as int + 1;
      ghost var start := ScanStart(total, hint);
      ghost var zeros := Zeros(fat.entries, total);
      ghost var z :| z in zeros;
      ghost var k := 0;
      while true
        invariant Valid() && fat.disk.sectors == old(fat.disk.sectors)
        invariant k <= Dist(total, start, z)
        invariant j >= 0 && ScanPos(total, start, k) == if j >= total then 0 else j
        invariant forall y :: y in zeros ==> k <= Dist(total, start, y)
        decreases total - k
      {
        if j >= total {
          j := 0;
        }
        var v := ReadFat(j);
        if v == 0 {
          break;
        }
        NotYet(fat.entries, total, start, k);
        j := j + 1;
        k := k + 1;
      }
      i := j;
      FirstZeroIsNextFree(hint, i);
    }

    /**
     * `apply_fat`: fails exactly when the count is 0; otherwise hands out the hinted cluster, whatever it is, and
     * moves the hint to the first free cluster after it in cyclic order.  The FAT itself is not changed.  With a
     * positive count over a range without a free cluster the search does not end (SearchEndsIff).
     */
    method ApplyFat() returns (r: Option<u32>)
      requires Valid()
      requires fi[FREE_CLSTS] > 0 ==> Zeros(fat.entries, TotalDatClst()) != {}
      modifies fat`fatSectOff, fat.buf, fat.disk, fi
      ensures Valid()
      ensures old(fi[FREE_CLSTS]) == 0 ==> r == None && fi[..] == old(fi[..])
      ensures old(fi[FREE_CLSTS]) > 0 ==>
        && r == Some(old(fi[NEXT_FREE_CLST]))
        && fi[FREE_CLSTS] == old(fi[FREE_CLSTS]) - 1
        && FirstZeroFrom(fat.entries, TotalDatClst(), ScanStart(TotalDatClst(), old(fi[NEXT_FREE_CLST])),
                         fi[NEXT_FREE_CLST])
        && NextFree(old(fi[NEXT_FREE_CLST]), fi[NEXT_FREE_CLST])
    {
      if fi[FREE_CLSTS] == 0 {
        return None;
      }
      var clstNo := fi[NEXT_FREE_CLST];
      var i := SearchFree(clstNo);
      StoreInfo(fi[FREE_CLSTS] - 1, i);
      return Some(clstNo);
    }

    /** `retake_fat`: count up (modulo 2^32), lower the hint if the cluster lies below it, clear the entry. */
    method RetakeFat(c: u32)
      requires Valid() && 2 <= c < |fat.entries|
      modifies fat`fatSectOff, fat`entries, fat.buf, fat.disk, fi
      ensures Valid() && fat.entries == old(fat.entries)[c := 0]
      ensures fi[FREE_CLSTS] == Add32(old(fi[FREE_CLSTS]), 1)
      ensures fi[NEXT_FREE_CLST] == RetakenHint(old(fi[NEXT_FREE_CLST]), c)
    {
      StoreInfo(Add32(fi[FREE_CLSTS], 1), if c < fi[NEXT_FREE_CLST] then c else fi[NEXT_FREE_CLST]);
      WriteFat(c, 0);
    }

    /**
     * `apply_fat` on consistent book-keeping: while the search has a cluster left, the one handed out was free and not
     * reserved, and is reserved now.
     */
    method Take(ghost reserved: set<nat>, ghost lost: int) returns (r: Option<u32>)
      requires Valid() && InfoOk(reserved, lost)
      requires fi[FREE_CLSTS] > 0 ==> fi[FREE_CLSTS] + lost > 0
      modifies fat`fatSectOff, fat.buf, fat.disk, fi
      ensures Valid()
      ensures r.None? <==> old(fi[FREE_CLSTS]) == 0
      ensures r.None? ==> fi[..] == old(fi[..])
      ensures r.Some? ==>
        && r.value == old(fi[NEXT_FREE_CLST]) && fi[FREE_CLSTS] == old(fi[FREE_CLSTS]) - 1
        && 2 <= r.value < TotalDatClst() && fat.entries[r.value] == 0 && r.value as nat !in reserved
        && InfoOk(reserved + {r.value as nat}, lost) && HintMoved(r.value)
    {
      ghost var hint: nat := fi[NEXT_FREE_CLST];
      ghost var free: nat := fi[FREE_CLSTS];
      if free > 0 {
        HintIsFree(fat.entries, TotalDatClst(), reserved, lost, free, hint);
      }
      hide FsInfoOk, FirstZeroFrom, NextFree;
      r := ApplyFat();
      if r.Some? {
        if fi[NEXT_FREE_CLST] == hint {
          OnlyItself(fat.entries, TotalDatClst(), hint);
        }
        ApplyKeeps(fat.entries, TotalDatClst(), reserved, lost, free, hint, fi[NEXT_FREE_CLST]);
      }
    }

    /** Link the taken cluster `c` behind the used cluster `prev` and make it the end of the chain. */
    method Link(prev: u32, c: u32, ghost reserved: set<nat>, ghost lost: int)
      requires Valid() && InfoOk(reserved + {c as nat}, lost) && c as nat !in reserved
      requires 2 <= prev < |fat.entries| && fat.entries[prev] != 0
      requires 2 <= c < TotalDatClst() && fat.entries[c] == 0 && HintMoved(c)
      modifies fat`fatSectOff, fat`entries, fat.buf, fat.disk
      ensures Valid() && InfoOk(reserved, lost)
      ensures fat.entries == old(fat.entries)[prev := c][c := END_OF_CHAIN]
    {
      RelinkKeeps(fat.entries, TotalDatClst(), reserved + {c as nat}, lost,
                  fi[FREE_CLSTS], fi[NEXT_FREE_CLST], prev, c);
      WriteFat(prev, c);
      MarkEnd(c, reserved, lost);
    }

    /** `write_fat(sb, c, 0x0fffffff)` on a taken cluster. */
    method MarkEnd(c: u32, ghost reserved: set<nat>, ghost lost: int)
      requires Valid() && InfoOk(reserved + {c as nat}, lost) && c as nat !in reserved
      requires 2 <= c < TotalDatClst() && fat.entries[c] == 0 && HintMoved(c)
      modifies fat`fatSectOff, fat`entries, fat.buf, fat.disk
      ensures Valid() && InfoOk(reserved, lost)
      ensures fat.entries == old(fat.entries)[c := END_OF_CHAIN] && fat.entries[c] == 0x0fff_ffff
    {
      MarkKeeps(fat.entries, TotalDatClst(), reserved + {c as nat}, lost,
                fi[FREE_CLSTS], fi[NEXT_FREE_CLST], c, END_OF_CHAIN);
      assert reserved + {c as nat} - {c as nat} == reserved;
      WriteFat(c, END_OF_CHAIN);
    }
  }
}
