/**
 * Directories as files (kernel/vfs/fat32.c: read_dr, write_dr, fat32_lookup_direntry, fat32_readdir,
 * fat32_apply_direntry, fat32_delete_direntry, fat32_createinode, fat32_deleteinode, fat32_isempty).
 * `pages` is the data that general_find_page shows for each cluster; PageCache proves that this view is well defined.
 */
module Directory {
  import opened Common
  import opened DirName
  import opened DirItems
  import opened DirRegister
  import opened FreeSpace
  import opened Chains
  import opened VolumeModule
  import FatTable
  import opened FileSystemModule

  /** The code takes 32 (its DIRENTRY_LEN) both for the length of a slot and for the number of slots in a page. */
  const SLOTS_PER_PAGE := DIRENTRY_LEN

  type Page = seq<u8>

  function SlotIn(page: Page, k: nat): Slot
    requires k < SLOTS_PER_PAGE && |page| >= SLOTS_PER_PAGE * DIRENTRY_LEN
  {
    page[k * DIRENTRY_LEN..(k + 1) * DIRENTRY_LEN]
  }

  ghost predicate HasPages(pages: map<u32, Page>, chain: seq<u32>) {
    forall i :: 0 <= i < |chain| ==> chain[i] in pages && |pages[chain[i]]| >= SLOTS_PER_PAGE * DIRENTRY_LEN
  }

  /** The slots of a directory whose clusters are `chain`. */
  ghost function SlotsOf(pages: map<u32, Page>, chain: seq<u32>): (s: seq<Slot>)
    requires HasPages(pages, chain)
    ensures |s| == SLOTS_PER_PAGE * |chain|
  {
    seq(SLOTS_PER_PAGE * |chain|, i requires 0 <= i < SLOTS_PER_PAGE * |chain| =>
      SlotIn(pages[chain[i / SLOTS_PER_PAGE]], i % SLOTS_PER_PAGE))
  }

  /** `kernel_memcpy(page->p_data + k * DIRENTRY_LEN, s, DIRENTRY_LEN)`. */
  function PageWith(page: Page, k: nat, s: Slot): (p: Page)
    requires k < SLOTS_PER_PAGE && |page| >= SLOTS_PER_PAGE * DIRENTRY_LEN
    ensures |p| == |page|
  {
    page[..k * DIRENTRY_LEN] + s + page[(k + 1) * DIRENTRY_LEN..]
  }

  /** Setting the first byte of a slot. */
  lemma FirstByte(page: Page, k: nat)
    requires k < SLOTS_PER_PAGE && |page| >= SLOTS_PER_PAGE * DIRENTRY_LEN
    ensures page[k * DIRENTRY_LEN := DELETED] == PageWith(page, k, SlotIn(page, k)[0 := DELETED])
  {
  }

  lemma PageWithSlot(page: Page, k: nat, s: Slot, m: nat)
    requires k < SLOTS_PER_PAGE && m < SLOTS_PER_PAGE && |page| >= SLOTS_PER_PAGE * DIRENTRY_LEN
    ensures SlotIn(PageWith(page, k, s), m) == if m == k then s else SlotIn(page, m)
  {
  }

  /** Writing one slot of one page changes exactly that slot of the directory. */
  lemma SlotWritten(pages: map<u32, Page>, chain: seq<u32>, i: nat, s: Slot)
    requires HasPages(pages, chain) && Distinct(chain) && i < SLOTS_PER_PAGE * |chain|
    ensures var c := chain[i / SLOTS_PER_PAGE];
            var pages' := pages[c := PageWith(pages[c], i % SLOTS_PER_PAGE, s)];
            HasPages(pages', chain) && SlotsOf(pages', chain) == SlotsOf(pages, chain)[i := s]
  {
    var c := chain[i / SLOTS_PER_PAGE];
    var pages' := pages[c := PageWith(pages[c], i % SLOTS_PER_PAGE, s)];
    var l, r := SlotsOf(pages', chain), SlotsOf(pages, chain)[i := s];
    forall j | 0 <= j < |l|
      ensures l[j] == r[j]
    {
      if j / SLOTS_PER_PAGE == i / SLOTS_PER_PAGE {
        PageWithSlot(pages[c], i % SLOTS_PER_PAGE, s, j % SLOTS_PER_PAGE);
      }
    }
  }

  /** Writing a page leaves every directory alone that the page does not belong to. */
  lemma OtherSlotsKept(pages: map<u32, Page>, chain: seq<u32>, c: u32, page: Page)
    requires HasPages(pages, chain) && c !in chain
    ensures HasPages(pages[c := page], chain) && SlotsOf(pages[c := page], chain) == SlotsOf(pages, chain)
  {
    assert forall i :: 0 <= i < |chain| ==> chain[i] in chain;
  }

  /** A directory that grows keeps its slots and shows those of the new cluster behind them. */
  lemma GrownSlots(pages: map<u32, Page>, chain: seq<u32>, c: u32)
    requires HasPages(pages, chain + [c])
    ensures HasPages(pages, chain) && HasPages(pages, [c])
    ensures SlotsOf(pages, chain + [c]) == SlotsOf(pages, chain) + SlotsOf(pages, [c])
  {
    assert forall i :: 0 <= i < |chain| ==> (chain + [c])[i] == chain[i];
    assert (chain + [c])[|chain|] == c;
  }

  /** The bytes of a row of slots. */
  ghost function Bytes(slots: seq<Slot>): seq<u8> {
    if slots == [] then [] else Bytes(slots[..|slots| - 1]) + slots[|slots| - 1]
  }

  /** The first 1024 bytes of each page of a file. */
  ghost function PageBytes(pages: map<u32, Page>, chain: seq<u32>): seq<u8>
    requires HasPages(pages, chain)
  {
    if chain == [] then [] else PageBytes(pages, chain[..|chain| - 1]) + pages[chain[|chain| - 1]][..1024]
  }

  lemma {:induction false} BytesConcat(a: seq<Slot>, b: seq<Slot>)
    ensures Bytes(a + b) == Bytes(a) + Bytes(b)
  {
    if b == [] {
      assert a + b == a;
    } else {
      BytesConcat(a, b[..|b| - 1]);
      assert (a + b)[..|a + b| - 1] == a + b[..|b| - 1];
    }
  }

  lemma {:induction false} FirstSlots(pages: map<u32, Page>, c: u32, k: nat)
    requires HasPages(pages, [c]) && c in pages && |pages[c]| >= 1024 && k <= SLOTS_PER_PAGE
    ensures Bytes(SlotsOf(pages, [c])[..k]) == pages[c][..k * 32]
  {
    if k > 0 {
      var slots := SlotsOf(pages, [c]);
      FirstSlots(pages, c, k - 1);
      assert slots[..k][..k - 1] == slots[..k - 1] && slots[k - 1] == SlotIn(pages[c], k - 1);
      assert pages[c][..k * 32] == pages[c][..(k - 1) * 32] + pages[c][(k - 1) * 32..k * 32];
    }
  }

  /** A directory's slots are what its pages hold, one after the other, as far as 32 slots of 32 bytes go. */
  lemma {:induction false} SlotsAreBytes(pages: map<u32, Page>, chain: seq<u32>)
    requires HasPages(pages, chain)
    ensures Bytes(SlotsOf(pages, chain)) == PageBytes(pages, chain)
  {
    if chain == [] {
      assert SlotsOf(pages, chain) == [];
    } else {
      var front, c := chain[..|chain| - 1], chain[|chain| - 1];
      assert chain == front + [c];
      GrownSlots(pages, front, c);
      SlotsAreBytes(pages, front);
      BytesConcat(SlotsOf(pages, front), SlotsOf(pages, [c]));
      assert [c][0] == c;
      FirstSlots(pages, c, SLOTS_PER_PAGE);
      assert SlotsOf(pages, [c])[..SLOTS_PER_PAGE] == SlotsOf(pages, [c]);
    }
  }

  // ---- reading a directory -----------------------------------------------------------------------------------

  /** What the reading routines look at: the pages and the directory inode's page table. */
  datatype View = View(pages: map<u32, Page>, aPage: seq<u32>) {
    ghost predicate Ok() {
      HasPages(pages, aPage)
    }

    ghost function Slots(): seq<Slot>
      requires Ok()
    {
      SlotsOf(pages, aPage)
    }
  }

  /** `read_dr`: slot `i`, or an error past the last page. */
  method ReadDr(v: View, i: nat) returns (r: Option<Slot>)
    requires v.Ok()
    ensures r == if i < |v.Slots()| then Some(v.Slots()[i]) else None
  {
    var vpn := i / SLOTS_PER_PAGE;
    if vpn >= |v.aPage| {
      return None;
    }
    var page := v.pages[v.aPage[vpn]];
    return Some(SlotIn(page, i % SLOTS_PER_PAGE));
  }

  /** The inner loop over the 13 characters of a long slot: every zero byte sets the length. */
  method ReadChunk(slot: Slot, buf: seq<u8>, base: nat, len0: nat) returns (r: seq<u8>, len: nat)
    requires base + 13 <= |buf|
    ensures len == ChunkLen(LongChunk(slot), 13, base, len0)
    ensures r == buf[..base] + LongChunk(slot) + buf[base + 13..]
  {
    r, len := buf, len0;
    var chunk := LongChunk(slot);
    hide LongChunk;
    for j := 0 to 13
      invariant len == ChunkLen(chunk, j, base, len0)
      invariant r == buf[..base] + chunk[..j] + buf[base + j..]
    {
      r := r[base + j := chunk[j]];
      if r[base + j] == 0 {
        len := base + j;
      }
    }
    assert chunk[..13] == chunk;
  }

  /** The loop over the long slots of an entry: their characters from the back of the name to its front. */
  method ReadLong(v: View, i: nat, dr: Slot, len0: nat, ghost parts: seq<Slot>, ghost s: Slot)
    returns (last: nat, dr': Slot, buf: seq<u8>, len: nat)
    requires v.Ok()
    requires 0 < |parts| && |parts| * 13 <= FILENAME_MX_LEN && parts[0][0] % 0x40 == |parts| && dr == parts[0]
    requires i + |parts| < |v.Slots()| && v.Slots()[i + |parts|] == s
    requires forall q :: 0 <= q < |parts| ==> v.Slots()[i + q] == parts[q]
    ensures last == i + |parts| && dr' == s
    ensures |buf| == FILENAME_MX_LEN && buf[..13 * |parts|] == NameBuf(parts) && len == NameLen(parts, len0)
  {
    hide SlotsOf, HasPages, View.Ok, LongChunk, ChunkLen, NameBuf, NameLen;
    last, dr', len := i, dr, len0;
    buf := seq(FILENAME_MX_LEN, _ => 0);
    var left: nat := dr[0] % 0x40;
    ghost var n := |parts|;
    assert parts[0..] == parts;
    while left > 0
      invariant left <= n && last == i + (n - left) && |buf| == FILENAME_MX_LEN
      invariant dr' == if left > 0 then parts[n - left] else s
      invariant NameLen(parts[n - left..], len) == NameLen(parts, len0)
      invariant NameBuf(parts[n - left..]) + buf[13 * left..13 * n] == NameBuf(parts)
    {
      ghost var was, wasLen := buf, len;
      buf, len := ReadChunk(dr', buf, 13 * (left - 1), len);
      NameBufStep(parts, left, was, buf);
      NameLenStep(parts, left, wasLen);
      left := left - 1;
      last := last + 1;
      var r := ReadDr(v, last);
      assert left > 0 ==> v.Slots()[i + (n - left)] == parts[n - left];
      dr' := r.value;
    }
    NameDone(parts[n..], len, buf[0..13 * n]);
  }

  /**
   * The block that `fat32_lookup_direntry` and `fat32_readdir` share: from the first slot `dr` of an entry read
   * its name into the 255-byte buffer, moving on to its 8.3 slot.
   */
  method ReadName(v: View, i: nat, dr: Slot, len0: nat, ghost items: seq<Item>, ghost k: nat)
    returns (last: nat, dr': Slot, n: nat, buf: seq<u8>, len: nat)
    requires v.Ok() && IsDir(v.Slots(), items)
    requires k < |items| && items[k].Terminated() && !items[k].Free?
    requires i == Offset(items, k) && dr == items[k].Slots()[0]
    ensures last + 1 == Offset(items, k + 1) && n == |items[k].Slots()| && dr' == items[k].s
    ensures len <= |buf| && buf[..len] == items[k].Text()
  {
    hide Layout, IsDir, Item.Ok, Offset, NameLen, NameBuf, SlotsOf, HasPages, AllOk, Item.Terminated, View.Ok,
         View.Slots, Item.Text, ShortText, LongChunk;
    EntryInSlots(v.Slots(), items, k);
    if dr[11] == LONGNAME {
      n := dr[0] % 0x40 + 1;
      last, dr', buf, len := ReadLong(v, i, dr, len0, items[k].parts, items[k].s);
      LongText(items[k], buf, len, len0);
    } else {
      n := 1;
      last, dr' := i, dr;
      buf, len := ParseShort(dr, seq(FILENAME_MX_LEN, _ => 0));
      ShortItemText(items[k]);
    }
  }

  lemma ShortItemText(it: Item)
    requires it.Short?
    ensures it.Text() == ShortText(it.s)
  {
  }

  /** What the reader finds at an item boundary. */
  lemma ItemHead(slots: seq<Slot>, items: seq<Item>, k: nat)
    requires IsDir(slots, items) && k <= |items|
    ensures var i := Offset(items, k);
            && i <= |Layout(items)| <= |slots|
            && (k < |items| ==>
                 && i < |Layout(items)| && slots[i] == items[k].Slots()[0] && slots[i][0] != 0
                 && (items[k].Free? <==> slots[i][0] == DELETED) && (items[k].Free? ==> Offset(items, k + 1) == i + 1)
                 && Offset(items, k + 1) == i + |items[k].Slots()|)
            && (k == |items| ==> i == |Layout(items)| && (i < |slots| ==> slots[i][0] == 0))
  {
    var i := Offset(items, k);
    if k == |items| {
      OffsetEnd(items);
    } else {
      ItemInSlots(slots, items, k);
      ItemAt(items, k);
      assert items[k].Ok();
      assert slots[i + 0] == items[k].Slots()[0];
    }
  }

  /** `fat32_lookup_direntry` computes the lookup that the items define. */
  method LookupDirentry(v: View, name: Name, t: FileType, ghost items: seq<Item>) returns (found: Option<Found>)
    requires v.Ok() && IsDir(v.Slots(), items) && AllTerminated(items)
    ensures found == Lookup(items, name, t)
  {
    hide Layout, IsDir, Offset, SlotsOf, HasPages, AllOk, Item.Terminated, Item.Text, Item.Slots,
         View.Ok, View.Slots;
    var i: nat, len: nat := 0, 0;
    ghost var k := 0;
    StartOffset(items);
    while true
      invariant k <= |items| && i == Offset(items, k)
      invariant forall j :: 0 <= j < k ==> !items[j].Matches(name, t)
      decreases |items| - k
    {
      ItemHead(v.Slots(), items, k);
      var r := ReadDr(v, i);
      if r == None || r.value[0] == 0 {
        LookupNone(items, name, t);
        return None;
      }
      var dr := r.value;
      if dr[0] != DELETED {
        var begin := i;
        var n, buf;
        assert items[k].Terminated();
        i, dr, n, buf, len := ReadName(v, i, dr, len, items, k);
        var same := CheckFilename(name, buf[..len]);
        if same && ((dr[11] == ARCHIVE && t == Norm) || (dr[11] == SUBDIR && t == Dir)) {
          LookupAt(items, k, name, t);
          return Some(Found(begin, n, dr));
        }
      }
      i := i + 1;
      k := k + 1;
    }
  }

  /**
   * `fat32_readdir`: the listing in slot order, collected in a table of `capacity` entries that it never overruns.
   * The error code is 1, although the listing is complete, exactly when no unused slot ends the directory.
   */
  method ReadDir(v: View, sectsPerClst: nat, ghost items: seq<Item>) returns (err: bool, list: seq<Dirent>)
    requires v.Ok() && sectsPerClst * 512 >= SLOTS_PER_PAGE * DIRENTRY_LEN
    requires IsDir(v.Slots(), items) && AllTerminated(items)
    ensures list == Listing(items)
    ensures err <==> |Layout(items)| == |v.Slots()|
  {
    hide Layout, IsDir, Offset, SlotsOf, HasPages, AllOk, Item.Terminated, Item.Text, Item.Slots,
         View.Ok, View.Slots;
    var capacity := |v.aPage| * sectsPerClst * 512 / DIRENTRY_LEN;
    CapacitySuffices(|v.aPage|, sectsPerClst);
    SlotsLength(v);
    var genTemp := new Dirent[capacity](_ => Dirent(0, Norm, []));
    var i: nat, size: nat, len: nat := 0, 0, 0;
    ghost var k := 0;
    StartOffset(items);
    assert items[..0] == [];
    while true
      invariant k <= |items| && i == Offset(items, k) && size <= i
      invariant size <= capacity && genTemp[..size] == Listing(items[..k])
      decreases |items| - k
    {
      ItemHead(v.Slots(), items, k);
      var r := ReadDr(v, i);
      if r == None || r.value[0] == 0 {
        err := r == None;
        break;
      }
      var dr := r.value;
      ListingStep(items, k);
      if dr[0] == DELETED {
      } else if dr[11] == VOLNAME {
        VolumeIffUnlisted(v.Slots(), items, k);
      } else {
        var n, buf;
        assert items[k].Terminated();
        VolumeIffUnlisted(v.Slots(), items, k);
        i, dr, n, buf, len := ReadName(v, i, dr, len, items, k);
        genTemp[size] := Dirent(FirstCluster(dr), if dr[11] / 0x10 % 2 == 1 then Dir else Norm, buf[..len]);
        size := size + 1;
      }
      i := i + 1;
      k := k + 1;
    }
    assert items[..k] == items;
    list := genTemp[..size];
  }

  lemma SlotsLength(v: View)
    requires v.Ok()
    ensures |v.Slots()| == SLOTS_PER_PAGE * |v.aPage|
  {
  }

  lemma CapacitySuffices(blocks: nat, sectsPerClst: nat)
    requires sectsPerClst >= 2
    ensures SLOTS_PER_PAGE * blocks <= blocks * sectsPerClst * 512 / DIRENTRY_LEN
  {
    assert blocks * 2 <= blocks * sectsPerClst;
  }

  lemma ListingStep(items: seq<Item>, k: nat)
    requires k < |items|
    ensures Listing(items[..k + 1]) == Listing(items[..k]) + if Listed(items[k]) then [EntryOf(items[k])] else []
  {
    assert items[..k + 1][..k] == items[..k];
  }

  /** A slot with the volume attribute that begins an item is a plain volume label, and nothing else is left out. */
  lemma VolumeIffUnlisted(slots: seq<Slot>, items: seq<Item>, k: nat)
    requires IsDir(slots, items) && k < |items| && !items[k].Free?
    ensures Offset(items, k) < |slots|
    ensures slots[Offset(items, k)][11] == VOLNAME <==> !Listed(items[k])
    ensures !Listed(items[k]) ==> Offset(items, k + 1) == Offset(items, k) + 1
  {
    EntryInSlots(slots, items, k);
  }

  /**
   * `fat32_isempty`: reports empty exactly when, after the two dot entries, there are only deleted slots up to an
   * unused one; a directory whose deleted slots reach the end of its last page does not count as empty.
   */
  method IsEmpty(v: View) returns (empty: bool)
    requires v.Ok()
    ensures empty <==> exists e :: 2 <= e < |v.Slots()| && v.Slots()[e][0] == 0 &&
                                   forall j :: 2 <= j < e ==> v.Slots()[j][0] == DELETED
  {
    ghost var slots := v.Slots();
    var i := 2;
    while true
      invariant 2 <= i && forall j :: 2 <= j < i && j < |slots| ==> slots[j][0] == DELETED
      decreases |slots| + 2 - i
    {
      var r := ReadDr(v, i);
      if r == None {
        return false;
      }
      if r.value[0] == DELETED {
        i := i + 1;
      } else {
        return r.value[0] == 0;
      }
    }
  }

  /** Slot `k` of a new file's first page. */
  function NewSlot(t: FileType, k: nat, ino: u32, parent: u32): Slot {
    if t == Dir && k < 2 then DotSlot(k + 1, if k == 0 then ino else parent) else seq(DIRENTRY_LEN, _ => 0)
  }

  /** How many clusters a registration at slot `begin` of a directory of `size` slots takes. */
  function Needed(name: Name, size: nat, begin: nat): nat {
    if begin + SlotCount(name) <= size then 1 else 2
  }

  /** The registration stops half way: the directory would have to grow, and the new file has the only free cluster. */
  ghost predicate CutOff(name: Name, size: nat, begin: Option<nat>, free: nat) {
    begin.Some? && free == 1 && begin.value + SlotCount(name) > size
  }

  /** The search for room at the head of `fat32_apply_direntry`; `dr` is the slot it read last. */
  method SearchRoom(v: View, need: nat) returns (begin: Option<nat>, dr: Slot)
    requires v.Ok() && need > 0
    ensures begin.Some? ==> IsRoom(v.Slots(), need, begin.value) && begin.value < |v.Slots()|
    ensures begin.None? ==> NoRoom(v.Slots(), need)
  {
    hide SlotsOf, HasPages, View.Ok, View.Slots, RunAt, IsRoom, NoRoom;
    ghost var slots := v.Slots();
    dr := seq(DIRENTRY_LEN, _ => 0);
    var i: nat, len: nat := 0, 0;
    while true
      invariant len <= i <= |slots| && len < need
      invariant forall j :: 0 <= j < i ==> slots[j][0] != 0
      invariant forall j :: i - len <= j < i ==> slots[j][0] == DELETED
      invariant len < i ==> slots[i - len - 1][0] != DELETED
      invariant forall b: nat :: b + need <= i ==> !RunAt(slots, b, need)
      decreases |slots| - i
    {
      var r := ReadDr(v, i);
      if r == None {
        NothingFound(slots, need);
        return None, dr;
      }
      dr := r.value;
      NoRunThrough(slots, i, len, need);
      if dr[0] == 0 {
        ZeroFound(slots, need, i);
        return Some(i), dr;
      } else if dr[0] == DELETED {
        len := len + 1;
        if len == need {
          RunFound(slots, need, i);
          return Some(i - len + 1), dr;
        }
      } else {
        len := 0;
      }
      i := i + 1;
    }
  }

  lemma NothingFound(slots: seq<Slot>, need: nat)
    requires need > 0 && forall j :: 0 <= j < |slots| ==> slots[j][0] != 0
    requires forall b: nat :: b + need <= |slots| ==> !RunAt(slots, b, need)
    ensures NoRoom(slots, need)
  {
  }

  lemma ZeroFound(slots: seq<Slot>, need: nat, i: nat)
    requires need > 0 && i < |slots| && slots[i][0] == 0
    requires forall j :: 0 <= j < i ==> slots[j][0] != 0
    requires forall b: nat :: b + need <= i ==> !RunAt(slots, b, need)
    ensures IsRoom(slots, need, i)
  {
  }

  lemma RunFound(slots: seq<Slot>, need: nat, i: nat)
    requires 0 < need <= i + 1 <= |slots|
    requires forall j :: 0 <= j <= i ==> slots[j][0] != 0
    requires forall j :: i + 1 - need <= j <= i ==> slots[j][0] == DELETED
    requires forall b: nat :: b + need <= i ==> !RunAt(slots, b, need)
    ensures IsRoom(slots, need, i + 1 - need)
  {
  }

  /** A run that ends at slot `i` needs `i` deleted and everything before it back to its start. */
  lemma NoRunThrough(slots: seq<Slot>, i: nat, len: nat, need: nat)
    requires i < |slots| && len < need && len <= i
    requires len < i ==> slots[i - len - 1][0] != DELETED
    requires forall b: nat :: b + need <= i ==> !RunAt(slots, b, need)
    ensures slots[i][0] != DELETED || len + 1 < need ==> forall b: nat :: b + need <= i + 1 ==> !RunAt(slots, b, need)
  {
    forall b: nat | b + need == i + 1 && RunAt(slots, b, need)
      ensures slots[i][0] == DELETED && len + 1 == need
    {
      assert slots[i][0] == DELETED;
    }
  }

  lemma StartOffset(items: seq<Item>)
    ensures Offset(items, 0) == 0
  {
  }

  lemma LongText(it: Item, buf: seq<u8>, len: nat, len0: nat)
    requires it.Long? && it.Terminated() && |buf| >= 13 * |it.parts|
    requires buf[..13 * |it.parts|] == NameBuf(it.parts) && len == NameLen(it.parts, len0)
    ensures len <= |buf| && buf[..len] == it.Text()
  {
    assert NameLen(it.parts, len0) == NameLen(it.parts, 0);
    assert buf[..len] == buf[..13 * |it.parts|][..len];
  }

  /** How the slots of a used item look to the reader. */
  lemma EntryInSlots(slots: seq<Slot>, items: seq<Item>, k: nat)
    requires IsDir(slots, items) && k < |items| && !items[k].Free?
    ensures var i, it := Offset(items, k), items[k];
            && Offset(items, k + 1) == i + |it.Slots()| <= |slots|
            && slots[i] == it.Slots()[0] && Used(slots[i])
            && (slots[i][11] == LONGNAME <==> it.Long?)
            && (it.Long? ==>
                 && 0 < |it.parts| && |it.parts| * 13 <= FILENAME_MX_LEN && slots[i][0] % 0x40 == |it.parts|
                 && (forall q :: 0 <= q < |it.parts| ==> slots[i + q] == it.parts[q])
                 && slots[i + |it.parts|] == it.s)
  {
    hide Layout, Offset;
    ItemInSlots(slots, items, k);
    ItemAt(items, k);
    var i, it := Offset(items, k), items[k];
    assert it.Ok();
    assert slots[i + 0] == it.Slots()[0];
    assert slots[i + (|it.Slots()| - 1)] == it.Slots()[|it.Slots()| - 1];
    if it.Long? {
      forall q | 0 <= q < |it.parts|
        ensures slots[i + q] == it.parts[q]
      {
        assert it.Slots()[q] == it.parts[q];
      }
    }
  }

  lemma NameDone(parts: seq<Slot>, len: nat, rest: seq<u8>)
    requires parts == []
    ensures NameLen(parts, len) == len && NameBuf(parts) + rest == rest
  {
  }

  lemma NameLenStep(parts: seq<Slot>, left: nat, len: nat)
    requires 0 < left <= |parts|
    ensures NameLen(parts[|parts| - left..], len) ==
            NameLen(parts[|parts| - (left - 1)..],
                    ChunkLen(LongChunk(parts[|parts| - left]), 13, 13 * (left - 1), len))
  {
    hide LongChunk, ChunkLen;
    TailOfTail(parts, |parts| - left);
  }

  /** One more chunk in front of the part of the name that was read so far. */
  lemma NameBufStep(parts: seq<Slot>, left: nat, was: seq<u8>, buf: seq<u8>)
    requires 0 < left <= |parts| && |was| == |buf| >= 13 * |parts|
    requires buf == was[..13 * (left - 1)] + LongChunk(parts[|parts| - left]) + was[13 * (left - 1) + 13..]
    requires NameBuf(parts[|parts| - left..]) + was[13 * left..13 * |parts|] == NameBuf(parts)
    ensures parts[|parts| - left..][1..] == parts[|parts| - (left - 1)..]
    ensures NameBuf(parts[|parts| - (left - 1)..]) + buf[13 * (left - 1)..13 * |parts|] == NameBuf(parts)
  {
    hide LongChunk, NameBuf;
    TailOfTail(parts, |parts| - left);
    NameBufCons(parts[|parts| - left..]);
    JoinStep(NameBuf(parts[|parts| - left + 1..]), LongChunk(parts[|parts| - left]), NameBuf(parts[|parts| - left..]),
             was, buf, 13 * (left - 1), 13 * left, 13 * |parts|, NameBuf(parts));
  }

  lemma NameBufCons(parts: seq<Slot>)
    requires parts != []
    ensures NameBuf(parts) == NameBuf(parts[1..]) + LongChunk(parts[0])
  {
    hide LongChunk;
  }

  lemma TailOfTail(parts: seq<Slot>, k: nat)
    requires k < |parts|
    ensures parts[k..][1..] == parts[k + 1..] && parts[k..][0] == parts[k]
  {
  }

  lemma JoinStep(front: seq<u8>, m: seq<u8>, whole: seq<u8>, was: seq<u8>, buf: seq<u8>, a: nat, b: nat, c: nat,
                 full: seq<u8>)
    requires |m| == 13 && b == a + 13 <= c <= |was| && buf == was[..a] + m + was[a + 13..]
    requires whole == front + m && whole + was[b..c] == full
    ensures front + buf[a..c] == full
  {
    SliceOfJoin(was, m, a, b, c, buf);
    Assoc(front, m, was[b..c]);
  }

  lemma SliceOfJoin(was: seq<u8>, m: seq<u8>, a: nat, b: nat, c: nat, buf: seq<u8>)
    requires a + |m| == b <= c <= |was| && buf == was[..a] + m + was[b..]
    ensures buf[a..c] == m + was[b..c]
  {
  }

  lemma Assoc(a: seq<u8>, b: seq<u8>, c: seq<u8>)
    ensures (a + b) + c == a + (b + c)
  {
  }

  // ---- changing a directory ----------------------------------------------------------------------------------

  /** Only pages of the clusters of `chain` differ. */
  ghost predicate OnlyPagesOf(before: map<u32, Page>, after: map<u32, Page>, chain: seq<u32>) {
    forall c :: c in before && c !in chain ==> c in after && after[c] == before[c]
  }

  /** Data of a file none of whose clusters was written stays what it was. */
  lemma OtherFileKept(before: map<u32, Page>, after: map<u32, Page>, chain: seq<u32>, other: seq<u32>)
    requires OnlyPagesOf(before, after, chain) && HasPages(before, other)
    requires forall c :: c in other ==> c !in chain
    ensures HasPages(after, other) && SlotsOf(after, other) == SlotsOf(before, other)
  {
    assert forall i :: 0 <= i < |other| ==> other[i] in other;
  }

  class DirStore {
    const fs: FileSystem
    const pageSize: nat
    /** Per cluster the bytes that general_find_page shows. */
    var pages: map<u32, Page>

    constructor (fs: FileSystem, pageSize: nat, pages: map<u32, Page>)
      requires fs.Valid() && pageSize >= SLOTS_PER_PAGE * DIRENTRY_LEN
      requires forall c: u32 :: 2 <= c < |fs.vol.fat.entries| ==> c in pages && |pages[c]| == pageSize
      ensures Valid() && this.fs == fs && this.pages == pages
    {
      this.fs := fs;
      this.pageSize := pageSize;
      this.pages := pages;
    }

    ghost predicate PagesOk()
      reads this, fs.vol.fat
    {
      && pageSize >= SLOTS_PER_PAGE * DIRENTRY_LEN
      && forall c: u32 :: 2 <= c < |fs.vol.fat.entries| ==> c in pages && |pages[c]| == pageSize
    }

    ghost predicate Valid()
      reads this, fs, fs.vol.Repr(), fs.live, set n | n in fs.live :: n.aPage
    {
      fs.Valid() && PagesOk()
    }

    /** The slots of the directory whose first cluster is `h`. */
    ghost function Slots(h: u32): (s: seq<Slot>)
      requires Valid() && h in fs.files
      reads this, fs, fs.vol.Repr(), fs.live, set n | n in fs.live :: n.aPage
      ensures |s| == SLOTS_PER_PAGE * |fs.files[h]|
    {
      assert IsChain(fs.vol.fat.entries, fs.files[h]);
      SlotsOf(pages, fs.files[h])
    }

    /** The reading routines see the directory through its inode's page table. */
    lemma ViewOf(dir: Inode)
      requires Valid() && dir in fs.live
      ensures dir.blocks <= dir.aPage.Length && dir.aPage[..dir.blocks] == fs.files[dir.ino]
      ensures IsChain(fs.vol.fat.entries, fs.files[dir.ino])
      ensures View(pages, dir.aPage[..dir.blocks]).Ok()
      ensures View(pages, dir.aPage[..dir.blocks]).Slots() == Slots(dir.ino)
    {
      assert fs.Agrees(dir);
      assert IsChain(fs.vol.fat.entries, fs.files[dir.ino]);
    }

    /** One slot is written: the page is found, the bytes copied in, the page written through. */
    method PutSlot(dir: Inode, i: nat, s: Slot)
      requires Valid() && dir in fs.live && i < |Slots(dir.ino)|
      modifies `pages
      ensures Valid() && Slots(dir.ino) == old(Slots(dir.ino))[i := s]
      ensures OnlyPagesOf(old(pages), pages, fs.files[dir.ino])
    {
      ViewOf(dir);
      ghost var chain := fs.files[dir.ino];
      ChainIsAcyclic(fs.vol.fat.entries, chain);
      var ppn := dir.aPage[i / SLOTS_PER_PAGE];
      assert ppn == chain[i / SLOTS_PER_PAGE];
      SlotWritten(pages, chain, i, s);
      pages := pages[ppn := PageWith(pages[ppn], i % SLOTS_PER_PAGE, s)];
    }

    /** `fat32_create_page(inode, 1)` for a directory, while cluster `p` is handed out but not yet marked. */
    method GrowDir(dir: Inode, ghost p: u32) returns (ok: bool, ghost got: seq<u32>)
      requires Valid() && dir in fs.live && fs.Ready({p as nat}) && fs.Enough(1)
      modifies fs.vol.fat`fatSectOff, fs.vol.fat`entries, fs.vol.fat.buf, fs.vol.fat.disk, fs.vol.fi,
               dir`blocks, dir`aPage, fs`files
      ensures Valid() && fs.Ready({p as nat})
      ensures ok <==> old(fs.vol.fi[FREE_CLSTS]) > 0
      ensures |got| == if ok then 1 else 0
      ensures fs.files == old(fs.files)[dir.ino := old(fs.files[dir.ino]) + got]
      ensures dir.blocks == old(dir.blocks) + |got|
      ensures WereFree(old(fs.vol.fat.entries), fs.vol.TotalDatClst(), {p as nat}, got)
      ensures fs.vol.fi[FREE_CLSTS] == old(fs.vol.fi[FREE_CLSTS]) - |got|
      ensures HasPages(pages, got) && Slots(dir.ino) == old(Slots(dir.ino)) + SlotsOf(pages, got)
    {
      hide FsInfoOk, Zeros, FatSized, Separate, Covered, FatTable.CopyLayout, FatTable.Mirrored, FatTable.Holds,
           FatTable.InFatRegion, SlotsOf;
      var done;
      done, got := fs.CreatePage(dir, 1, {p as nat});
      ok := done == 1;
      ghost var chain := old(fs.files[dir.ino]);
      assert fs.files[dir.ino] == chain + got;
      assert IsChain(fs.vol.fat.entries, fs.files[dir.ino]);
      if ok {
        assert got == [got[0]];
        GrownSlots(pages, chain, got[0]);
      } else {
        assert got == [] && chain + got == chain;
        assert |SlotsOf(pages, got)| == 0;
      }
    }

    /** The loop body of `fat32_apply_direntry`: slot `i` gets its part of the name. */
    method WriteOne(dir: Inode, name: Name, t: FileType, dr0: Slot, begin: nat, i: nat, p: u32,
                    ghost all: seq<Slot>, ghost cMs: u8) returns (dr: Slot)
      requires Valid() && dir in fs.live && |name| <= LONGEST_NAME
      requires begin <= i < begin + SlotCount(name) && i < |all|
      requires Slots(dir.ino) == Overwritten(all, begin, FileSlots(name, t, p, cMs)[..i - begin])
      requires if SlotCount(name) > 1 then cMs == 0x2a && (i > begin ==> dr0[13] == cMs) else cMs == dr0[13]
      modifies `pages
      ensures Valid() && Slots(dir.ino) == Overwritten(all, begin, FileSlots(name, t, p, cMs)[..i + 1 - begin])
      ensures OnlyPagesOf(old(pages), pages, fs.files[dir.ino])
      ensures i + 1 < begin + SlotCount(name) ==> dr[13] == cMs
    {
      hide FatTable.CopyLayout, FatTable.Mirrored, FatTable.Holds, FatTable.InFatRegion, WellFormed, FileSystem.Mapped,
           SlotsOf, LongSlot, ShortSlot, Overwritten, OnlyPagesOf;
      var need := SlotCount(name);
      dr := FillDirentry(name, t, dr0, need - 1 - (i - begin), need, p);
      assert dr == FileSlots(name, t, p, cMs)[i - begin];
      if i < begin + need - 1 {
        LongSlotMarks(name, need - 1 - (i - begin), need);
      }
      PutSlot(dir, i, dr);
      OverwriteNext(all, begin, FileSlots(name, t, p, cMs), i - begin);
    }

    /**
     * The registering loop of `fat32_apply_direntry` from slot `lo` up to slot `hi` of the present pages.  `all` is
     * what the directory held before the first slot of the file was written at `begin`.
     */
    method WriteRange(dir: Inode, name: Name, t: FileType, dr0: Slot, begin: nat, lo: nat, hi: nat, p: u32,
                      ghost all: seq<Slot>, ghost cMs: u8) returns (dr: Slot)
      requires Valid() && dir in fs.live && |name| <= LONGEST_NAME
      requires begin <= lo <= hi <= begin + SlotCount(name) && hi <= |all|
      requires Slots(dir.ino) == Overwritten(all, begin, FileSlots(name, t, p, cMs)[..lo - begin])
      requires if SlotCount(name) > 1 then cMs == 0x2a && (lo > begin ==> dr0[13] == cMs) else cMs == dr0[13]
      modifies `pages
      ensures Valid() && Slots(dir.ino) == Overwritten(all, begin, FileSlots(name, t, p, cMs)[..hi - begin])
      ensures OnlyPagesOf(old(pages), pages, fs.files[dir.ino])
      ensures lo < hi < begin + SlotCount(name) ==> dr[13] == cMs
      ensures lo == hi ==> dr == dr0
    {
      hide FatTable.CopyLayout, FatTable.Mirrored, FatTable.Holds, FatTable.InFatRegion, WellFormed, SlotsOf,
           LongSlot, ShortSlot, Overwritten, FileSlots;
      var need := SlotCount(name);
      ghost var file := FileSlots(name, t, p, cMs);
      assert fs.Agrees(dir);
      dr := dr0;
      var i := lo;
      while i < hi
        invariant lo <= i <= hi && Valid() && dir.ino in fs.files
        invariant Slots(dir.ino) == Overwritten(all, begin, file[..i - begin])
        invariant OnlyPagesOf(old(pages), pages, fs.files[dir.ino])
        invariant i == lo ==> dr == dr0
        invariant lo < i < begin + need ==> dr[13] == cMs
      {
        dr := WriteOne(dir, name, t, dr, begin, i, p, all, cMs);
        i := i + 1;
      }
    }

    /** The loop goes on past the present pages: it takes one more cluster, or gives up. */
    method WriteRest(dir: Inode, name: Name, t: FileType, dr: Slot, begin: nat, p: u32,
                     ghost was: seq<Slot>, ghost cMs: u8) returns (ok: bool, ghost got: seq<u32>)
      requires Valid() && dir in fs.live && fs.Ready({p as nat}) && fs.Enough(1) && |name| <= LONGEST_NAME
      requires |was| == |Slots(dir.ino)| && begin < |was| < begin + SlotCount(name)
      requires Slots(dir.ino) == Overwritten(was, begin, FileSlots(name, t, p, cMs)[..|was| - begin])
      requires cMs == 0x2a && dr[13] == cMs
      modifies `pages, fs.vol.fat`fatSectOff, fs.vol.fat`entries, fs.vol.fat.buf, fs.vol.fat.disk, fs.vol.fi,
               dir`blocks, dir`aPage, fs`files
      ensures Valid() && fs.Ready({p as nat})
      ensures fs.files == old(fs.files)[dir.ino := old(fs.files[dir.ino]) + got]
      ensures WereFree(old(fs.vol.fat.entries), fs.vol.TotalDatClst(), {p as nat}, got)
      ensures OnlyPagesOf(old(pages), pages, fs.files[dir.ino]) && HasPages(old(pages), got)
      ensures fs.vol.fi[FREE_CLSTS] == old(fs.vol.fi[FREE_CLSTS]) - |got|
      ensures Registered(was, SlotsOf(old(pages), got), Slots(dir.ino), begin,
                         FileSlots(name, t, p, cMs), old(fs.vol.fi[FREE_CLSTS]), ok)
    {
      hide FatTable.CopyLayout, FatTable.Mirrored, FatTable.Holds, FatTable.InFatRegion, SlotsOf, LongSlot, ShortSlot,
           FsInfoOk, Zeros, FatSized, Separate, Covered, AllChains, Overwritten;
      ghost var file := FileSlots(name, t, p, cMs);
      ViewOf(dir);
      var reached := SLOTS_PER_PAGE * dir.blocks;
      ok, got := GrowDir(dir, p);
      ghost var more := SlotsOf(pages, got);
      if ok {
        OverwriteBeforeGrowth(was, begin, file[..|was| - begin], more);
        var end := begin + SlotCount(name);
        var dr' := WriteRange(dir, name, t, dr, begin, reached, end, p, was + more, cMs);
        assert file[..end - begin] == file;
      } else {
        ghost var written := Overwritten(was, begin, file[..|was| - begin]);
        assert |more| == 0 && written + more == written;
      }
    }

    /**
     * The whole registering loop: it grows the directory at most once, when it reaches the end of the present
     * pages (a name takes at most 20 slots, a page holds 32), and gives up there if no cluster is left.
     */
    method WriteSlots(dir: Inode, name: Name, t: FileType, dr: Slot, begin: nat, p: u32)
      returns (ok: bool, ghost got: seq<u32>, ghost cMs: u8)
      requires Valid() && dir in fs.live && fs.Ready({p as nat}) && |name| <= LONGEST_NAME
      requires begin < |Slots(dir.ino)| && (begin + SlotCount(name) > |Slots(dir.ino)| ==> fs.Enough(1))
      modifies `pages, fs.vol.fat`fatSectOff, fs.vol.fat`entries, fs.vol.fat.buf, fs.vol.fat.disk, fs.vol.fi,
               dir`blocks, dir`aPage, fs`files
      ensures Valid() && fs.Ready({p as nat})
      ensures fs.files == old(fs.files)[dir.ino := old(fs.files[dir.ino]) + got]
      ensures WereFree(old(fs.vol.fat.entries), fs.vol.TotalDatClst(), {p as nat}, got)
      ensures OnlyPagesOf(old(pages), pages, fs.files[dir.ino]) && HasPages(old(pages), got)
      ensures fs.vol.fi[FREE_CLSTS] == old(fs.vol.fi[FREE_CLSTS]) - |got|
      ensures Registered(old(Slots(dir.ino)), SlotsOf(old(pages), got), Slots(dir.ino), begin,
                         FileSlots(name, t, p, cMs), old(fs.vol.fi[FREE_CLSTS]), ok)
    {
      hide FatTable.CopyLayout, FatTable.Mirrored, FatTable.Holds, FatTable.InFatRegion, SlotsOf, LongSlot, ShortSlot,
           FsInfoOk, Zeros, WellFormed, IsChain, Overwritten, Registered, OnlyPagesOf, HasPages;
      var need := SlotCount(name);
      var blks := dir.blocks;
      ghost var was := Slots(dir.ino);
      ViewOf(dir);
      cMs := if need == 1 then dr[13] else 0x2a;
      ghost var file := FileSlots(name, t, p, cMs);
      assert Overwritten(was, begin, file[..0]) == was by {
        OverwrittenIndex(was, begin, file[..0]);
      }
      var end := if begin + need <= SLOTS_PER_PAGE * blks then begin + need else SLOTS_PER_PAGE * blks;
      var dr' := WriteRange(dir, name, t, dr, begin, begin, end, p, was, cMs);
      ghost var pages1 := pages;
      if end == begin + need {
        ok, got := true, [];
        assert fs.files[dir.ino] + got == fs.files[dir.ino];
        assert file[..need] == file;
        NoMorePages(old(pages));
        FitsIsRegistered(was, Slots(dir.ino), begin, file, fs.vol.fi[FREE_CLSTS]);
        return;
      }
      ok, got := WriteRest(dir, name, t, dr', begin, p, was, cMs);
      FreeOutside(old(fs.vol.fat.entries), fs.vol.TotalDatClst(), {p as nat}, old(fs.files[dir.ino]), got);
      FreeHavePages(old(pages), old(fs.vol.fat.entries), fs.vol.TotalDatClst(), {p as nat}, got);
      OtherFileKept(old(pages), pages1, old(fs.files[dir.ino]), got);
      OnlyPagesOfBoth(old(pages), pages1, pages, old(fs.files[dir.ino]), got);
    }

    /**
     * `fat32_apply_direntry` once room was found at slot `begin`: take the cluster `p` that becomes the file's
     * number, write the slots.  If the directory would have to grow and cannot, `p` is lost to the free count.
     */
    method RegisterAt(dir: Inode, name: Name, t: FileType, dr: Slot, begin: nat)
      returns (r: Option<u32>, ghost got: seq<u32>, ghost cMs: u8, ghost p: u32)
      requires Valid() && dir in fs.live && fs.Ready({}) && |name| <= LONGEST_NAME
      requires begin < |Slots(dir.ino)| && fs.vol.fi[FREE_CLSTS] > 0
      requires fs.Enough(Needed(name, |Slots(dir.ino)|, begin))
      modifies `pages, fs.vol.fat`fatSectOff, fs.vol.fat`entries, fs.vol.fat.buf, fs.vol.fat.disk, fs.vol.fi,
               dir`blocks, dir`aPage, fs`files, fs`lost
      ensures Valid() && fs.files == old(fs.files)[dir.ino := old(fs.files[dir.ino]) + got]
      ensures OnlyPagesOf(old(pages), pages, fs.files[dir.ino]) && HasPages(old(pages), got)
      ensures Registered(old(Slots(dir.ino)), SlotsOf(old(pages), got), Slots(dir.ino), begin,
                         FileSlots(name, t, p, cMs), old(fs.vol.fi[FREE_CLSTS]) - 1, r.Some?)
      ensures WereFree(old(fs.vol.fat.entries), fs.vol.TotalDatClst(), {p as nat}, got)
      ensures 2 <= p < fs.vol.TotalDatClst() && old(fs.vol.fat.entries)[p] == 0
      ensures fs.vol.fi[FREE_CLSTS] == old(fs.vol.fi[FREE_CLSTS]) - 1 - |got|
      ensures r.Some? ==> r.value == p && fs.Ready({p as nat}) && fs.vol.fat.entries[p] == 0 && fs.lost == old(fs.lost)
      ensures r.None? ==> fs.Ready({}) && fs.lost == old(fs.lost) + 1
    {
      hide FatTable.CopyLayout, FatTable.Mirrored, FatTable.Holds, FatTable.InFatRegion, SlotsOf, LongSlot,
           ShortSlot, FileSlots,
           Zeros, FsInfoOk, WellFormed, IsChain, Overwritten, Registered, OnlyPagesOf, HasPages, FileSystem.Mapped;
      r := fs.Reserve();
      p := r.value;
      var ok;
      ok, got, cMs := WriteSlots(dir, name, t, dr, begin, r.value);
      ReservedIsFree(fs.vol.fat.entries, fs.vol.TotalDatClst(), {p as nat}, fs.lost,
                     fs.vol.fi[FREE_CLSTS], fs.vol.fi[NEXT_FREE_CLST], p);
      if !ok {
        fs.Abandon(p);
        r := None;
      }
    }

    /** Wherever the entry will go, the search of `apply_fat` will find the clusters for it. */
    ghost predicate Affordable(dir: Inode, name: Name)
      requires Valid() && dir.ino in fs.files
      reads this, fs, fs.vol.Repr(), fs.live, set n | n in fs.live :: n.aPage
    {
      forall b :: IsRoom(Slots(dir.ino), SlotCount(name), b) ==> fs.Enough(Needed(name, |Slots(dir.ino)|, b))
    }

    /** `fat32_apply_direntry`: nothing happens without room or without a free cluster, else RegisterAt. */
    method ApplyDirentry(dir: Inode, name: Name, t: FileType)
      returns (r: Option<u32>, ghost begin: Option<nat>, ghost got: seq<u32>, ghost cMs: u8, ghost p: u32)
      requires Valid() && dir in fs.live && fs.Ready({}) && |name| <= LONGEST_NAME
      requires dir.ino in fs.files && Affordable(dir, name)
      modifies `pages, fs.vol.fat`fatSectOff, fs.vol.fat`entries, fs.vol.fat.buf, fs.vol.fat.disk, fs.vol.fi,
               dir`blocks, dir`aPage, fs`files, fs`lost
      ensures Valid() && fs.files == old(fs.files)[dir.ino := old(fs.files[dir.ino]) + got]
      ensures match begin
              case None => NoRoom(old(Slots(dir.ino)), SlotCount(name))
              case Some(b) => IsRoom(old(Slots(dir.ino)), SlotCount(name), b)
      ensures begin.None? || old(fs.vol.fi[FREE_CLSTS]) == 0 ==>
        && r.None? && pages == old(pages) && got == [] && fs.lost == old(fs.lost) && fs.Ready({})
        && fs.vol.fi[..] == old(fs.vol.fi[..])
      ensures begin.Some? && old(fs.vol.fi[FREE_CLSTS]) > 0 ==>
        && OnlyPagesOf(old(pages), pages, fs.files[dir.ino]) && HasPages(old(pages), got)
        && Registered(old(Slots(dir.ino)), SlotsOf(old(pages), got), Slots(dir.ino), begin.value,
                      FileSlots(name, t, p, cMs), old(fs.vol.fi[FREE_CLSTS]) - 1, r.Some?)
        && WereFree(old(fs.vol.fat.entries), fs.vol.TotalDatClst(), {p as nat}, got)
        && 2 <= p < fs.vol.TotalDatClst() && old(fs.vol.fat.entries)[p] == 0
        && fs.vol.fi[FREE_CLSTS] == old(fs.vol.fi[FREE_CLSTS]) - 1 - |got|
      ensures r.Some? ==> r.value == p && fs.Ready({p as nat}) && fs.vol.fat.entries[p] == 0 && fs.lost == old(fs.lost)
      ensures begin.Some? && old(fs.vol.fi[FREE_CLSTS]) > 0 && r.None? ==> fs.Ready({}) && fs.lost == old(fs.lost) + 1
    {
      hide FatTable.CopyLayout, FatTable.Mirrored, FatTable.Holds, FatTable.InFatRegion, SlotsOf, LongSlot,
           ShortSlot, FileSlots,
           Zeros, FsInfoOk, WellFormed, IsChain, Overwritten, Registered, OnlyPagesOf, HasPages, IsRoom, NoRoom,
           WereFree;
      ViewOf(dir);
      p, got, cMs := 0, [], 0;
      assert fs.files[dir.ino] + got == fs.files[dir.ino];
      var room, dr := SearchRoom(View(pages, dir.aPage[..dir.blocks]), SlotCount(name));
      begin := room;
      if room == None {
        return None, begin, got, cMs, p;
      }
      if fs.vol.fi[FREE_CLSTS] == 0 {
        r := fs.Reserve();
      } else {
        r, got, cMs, p := RegisterAt(dir, name, t, dr, room.value);
      }
    }

    /** The write of one deletion mark: a single byte of the page changes. */
    method MarkDeleted(dir: Inode, i: nat)
      requires Valid() && dir in fs.live && i < |Slots(dir.ino)|
      modifies `pages
      ensures Valid() && Slots(dir.ino) == old(Slots(dir.ino))[i := old(Slots(dir.ino))[i][0 := DELETED]]
      ensures OnlyPagesOf(old(pages), pages, fs.files[dir.ino])
    {
      hide FatTable.CopyLayout, FatTable.Mirrored, FatTable.Holds, FatTable.InFatRegion, Separate, Covered;
      ViewOf(dir);
      ghost var chain, s := fs.files[dir.ino], Slots(dir.ino)[i][0 := DELETED];
      ChainIsAcyclic(fs.vol.fat.entries, chain);
      var ppn := dir.aPage[i / SLOTS_PER_PAGE];
      assert ppn == chain[i / SLOTS_PER_PAGE];
      var iInpage := i % SLOTS_PER_PAGE;
      SlotWritten(pages, chain, i, s);
      FirstByte(pages[ppn], iInpage);
      var pData: Page := pages[ppn][iInpage * DIRENTRY_LEN := DELETED];
      pages := pages[ppn := pData];
    }

    /** `fat32_delete_direntry`: the slots `[begin, begin + len)` are marked deleted, nothing else changes. */
    method DeleteDirentry(dir: Inode, begin: nat, len: nat)
      requires Valid() && dir in fs.live && begin + len <= |Slots(dir.ino)|
      modifies `pages
      ensures Valid() && Slots(dir.ino) == Marked(old(Slots(dir.ino)), begin, len)
      ensures OnlyPagesOf(old(pages), pages, fs.files[dir.ino])
    {
      hide FatTable.CopyLayout, FatTable.Mirrored, FatTable.Holds, FatTable.InFatRegion, WellFormed, SlotsOf;
      ghost var was := Slots(dir.ino);
      assert Marked(was, begin, 0) == was;
      assert fs.Agrees(dir);
      for i := begin to begin + len
        invariant Valid() && dir.ino in fs.files && |Slots(dir.ino)| == |was|
        invariant Slots(dir.ino) == Marked(was, begin, i - begin)
        invariant OnlyPagesOf(old(pages), pages, fs.files[dir.ino])
      {
        MarkDeleted(dir, i);
        assert Marked(was, begin, i - begin)[i := was[i][0 := DELETED]] == Marked(was, begin, i + 1 - begin);
      }
    }

    /** The first page of a new file: zero, and for a directory its two dot entries. */
    method NewPage(t: FileType, ino: u32, parent: u32) returns (page: Page)
      requires pageSize >= SLOTS_PER_PAGE * DIRENTRY_LEN
      ensures |page| == pageSize
      ensures forall k :: 0 <= k < SLOTS_PER_PAGE ==>
        SlotIn(page, k) == NewSlot(t, k, ino, parent)
      ensures ZeroFrom(page, if t == Dir then 2 * DIRENTRY_LEN else 0)
    {
      hide DotSlot;
      page := seq(pageSize, _ => 0);
      if t == Dir {
        ghost var zero := page;
        page := PageWith(page, 0, DotSlot(1, ino));
        page := PageWith(page, 1, DotSlot(2, parent));
        forall k | 0 <= k < SLOTS_PER_PAGE
          ensures SlotIn(page, k) == NewSlot(t, k, ino, parent)
        {
          PageWithSlot(zero, 0, DotSlot(1, ino), k);
          PageWithSlot(PageWith(zero, 0, DotSlot(1, ino)), 1, DotSlot(2, parent), k);
        }
      }
    }

    /** The FAT part of the new file; the parent's clusters are others. */
    method InstallInode(dir: Inode, p: u32) returns (inode: Inode)
      requires Valid() && dir in fs.live && fs.Ready({p as nat})
      requires 2 <= p < fs.vol.TotalDatClst() && fs.vol.fat.entries[p] == 0
      modifies fs.vol.fat`fatSectOff, fs.vol.fat`entries, fs.vol.fat.buf, fs.vol.fat.disk, fs`files, fs`live
      ensures Valid() && fs.Ready({}) && fresh(inode) && fs.live == old(fs.live) + {inode}
      ensures inode.ino == p && inode.blocks == 1 && p !in old(fs.files) && fs.files == old(fs.files)[p := [p]]
      ensures dir.ino in fs.files && p !in fs.files[dir.ino] && Slots(dir.ino) == old(Slots(dir.ino))
      ensures |fs.vol.fat.entries| == old(|fs.vol.fat.entries|)
    {
      hide FatTable.CopyLayout, FatTable.Mirrored, FatTable.Holds, FatTable.InFatRegion, SlotsOf, HasPages,
           Zeros, FsInfoOk, WellFormed, IsChain;
      ViewOf(dir);
      ChainClustersUsed(fs.vol.fat.entries, fs.files[dir.ino]);
      inode := fs.InstallFile(p);
    }

    /**
     * The rest of `fat32_createinode`: end the new file's chain in the cluster that was handed out and write that
     * cluster's first page.  No slot of the parent changes.
     */
    method InstallFile(dir: Inode, p: u32, t: FileType) returns (inode: Inode)
      requires Valid() && dir in fs.live && fs.Ready({p as nat})
      requires 2 <= p < fs.vol.TotalDatClst() && fs.vol.fat.entries[p] == 0
      modifies `pages, fs.vol.fat`fatSectOff, fs.vol.fat`entries, fs.vol.fat.buf, fs.vol.fat.disk, fs`files, fs`live
      ensures Valid() && fs.Ready({}) && fresh(inode) && fs.live == old(fs.live) + {inode}
      ensures inode.ino == p && inode.blocks == 1 && p !in old(fs.files) && fs.files == old(fs.files)[p := [p]]
      ensures Slots(dir.ino) == old(Slots(dir.ino)) && OnlyPagesOf(old(pages), pages, [p])
      ensures NewFileSlots(Slots(p), t, p, dir.ino) && (t == Dir ==> DotsLead(Slots(p), p, dir.ino))
      ensures p in pages && |pages[p]| == pageSize && ZeroFrom(pages[p], if t == Dir then 2 * DIRENTRY_LEN else 0)
    {
      hide FatTable.CopyLayout, FatTable.Mirrored, FatTable.Holds, FatTable.InFatRegion, SlotsOf, HasPages,
           Zeros, FsInfoOk, WellFormed, DotSlot, NewSlot, NewFileSlots, IsChain, OnlyPagesOf, FileSystem.Mapped,
           DotsLead, ZeroFrom;
      inode := InstallInode(dir, p);
      var page := NewPage(t, p, dir.ino);
      StorePage(dir, p, t, page);
      if t == Dir {
        NewDirectoryLeads(Slots(p), p, dir.ino);
      }
    }

    /** The first page of file `p` is written. */
    method StorePage(dir: Inode, p: u32, t: FileType, page: Page)
      requires Valid() && dir.ino in fs.files && p in fs.files && fs.files[p] == [p] && p !in fs.files[dir.ino]
      requires |page| == pageSize
      requires forall k :: 0 <= k < SLOTS_PER_PAGE ==> SlotIn(page, k) == NewSlot(t, k, p, dir.ino)
      modifies `pages
      ensures Valid() && Slots(dir.ino) == old(Slots(dir.ino)) && OnlyPagesOf(old(pages), pages, [p])
      ensures NewFileSlots(Slots(p), t, p, dir.ino) && p in pages && pages[p] == page
    {
      hide FatTable.CopyLayout, FatTable.Mirrored, FatTable.Holds, FatTable.InFatRegion, SlotsOf,
           Zeros, FsInfoOk, DotSlot, NewFileSlots, NewSlot;
      assert IsChain(fs.vol.fat.entries, fs.files[dir.ino]);
      OtherSlotsKept(pages, fs.files[dir.ino], p, page);
      OnePage(pages, p, page, t, dir.ino);
      pages := pages[p := page];
    }

    /**
     * `fat32_createinode`: register the name in the parent, then install the file.  Between hand-out and marking the
     * parent may have grown; the new file's cluster is not among those that it got.  It fails without room in the
     * parent, without a free cluster, and when the parent would have to grow and the only free cluster is the new
     * file's; only this last failure leaves a trace, and that trace is not a well-formed directory.
     */
    method CreateInode(dir: Inode, name: Name, t: FileType)
      returns (inode: Inode?, ghost begin: Option<nat>, ghost got: seq<u32>, ghost cMs: u8)
      requires Valid() && dir in fs.live && fs.Ready({}) && |name| <= LONGEST_NAME
      requires dir.ino in fs.files && Affordable(dir, name)
      modifies `pages, fs.vol.fat`fatSectOff, fs.vol.fat`entries, fs.vol.fat.buf, fs.vol.fat.disk, fs.vol.fi,
               dir`blocks, dir`aPage, fs`files, fs`lost, fs`live
      ensures Valid() && fs.Ready({}) && dir.ino in fs.files
      ensures match begin
              case None => NoRoom(old(Slots(dir.ino)), SlotCount(name))
              case Some(b) => IsRoom(old(Slots(dir.ino)), SlotCount(name), b)
      ensures var cut := CutOff(name, old(|Slots(dir.ino)|), begin, old(fs.vol.fi[FREE_CLSTS]));
        && (inode == null <==> begin.None? || old(fs.vol.fi[FREE_CLSTS]) == 0 || cut)
        && fs.lost == old(fs.lost) + (if cut then 1 else 0)
        && (inode == null && !cut ==>
             && pages == old(pages) && Slots(dir.ino) == old(Slots(dir.ino))
             && fs.vol.fi[FREE_CLSTS] == old(fs.vol.fi[FREE_CLSTS]))
        && (inode == null ==> forall items :: IsDir(old(Slots(dir.ino)), items) ==>
             ((exists x :: IsDir(Slots(dir.ino), x)) <==> !cut))
      ensures inode == null ==>
        && got == [] && fs.live == old(fs.live) && fs.files == old(fs.files)
        && OnlyPagesOf(old(pages), pages, fs.files[dir.ino])
      ensures inode != null ==>
        && fresh(inode) && fs.live == old(fs.live) + {inode} && inode.blocks == 1
        && fs.vol.fi[FREE_CLSTS] == old(fs.vol.fi[FREE_CLSTS]) - 1 - |got|
        && inode.ino !in old(fs.files) && inode.ino !in got && inode.ino in fs.files
      ensures inode != null ==>
        fs.files == old(fs.files)[dir.ino := old(fs.files[dir.ino]) + got][inode.ino := [inode.ino]]
      ensures inode != null ==>
        HasPages(old(pages), got) && OnlyPagesOf(old(pages), pages, old(fs.files[dir.ino]) + got + [inode.ino])
      ensures inode != null ==>
        Registered(old(Slots(dir.ino)), SlotsOf(old(pages), got), Slots(dir.ino), begin.value,
                   FileSlots(name, t, inode.ino, cMs), old(fs.vol.fi[FREE_CLSTS]) - 1, true)
      ensures inode != null ==>
        && NewFileSlots(Slots(inode.ino), t, inode.ino, dir.ino)
        && (t == Dir ==> DotsLead(Slots(inode.ino), inode.ino, dir.ino))
    {
      hide FatTable.CopyLayout, FatTable.Mirrored, FatTable.Holds, FatTable.InFatRegion, SlotsOf, FileSlots,
           Zeros, FsInfoOk, WellFormed, Registered, HasPages, IsRoom, NoRoom, IsDir, NewFileSlots, DotsLead, ZeroFrom;
      inode := null;
      var r;
      ghost var p;
      r, begin, got, cMs, p := ApplyDirentry(dir, name, t);
      if begin.Some? && old(fs.vol.fi[FREE_CLSTS]) > 0 {
        RegisteredIff(old(Slots(dir.ino)), old(pages), got, Slots(dir.ino), begin.value, name, t, p, cMs,
                      old(fs.vol.fi[FREE_CLSTS]), r.Some?);
      }
      if r == None {
        assert old(fs.files[dir.ino]) + [] == old(fs.files[dir.ino]);
        return;
      }
      inode := InstallFile(dir, r.value, t);
    }

    /** The clusters of a file go back; no page of another file is touched. */
    method DropInode(dir: Inode, inode: Inode)
      requires Valid() && dir in fs.live && inode in fs.live && inode != dir
      modifies fs.vol.fat`fatSectOff, fs.vol.fat`entries, fs.vol.fat.buf, fs.vol.fat.disk, fs.vol.fi,
               fs`files, fs`live, fs`lost
      ensures Valid() && fs.live == old(fs.live) - {inode} && fs.files == old(fs.files) - {inode.ino}
      ensures dir.ino in fs.files && Slots(dir.ino) == old(Slots(dir.ino))
      ensures inode.ino in old(fs.files)
      ensures fs.vol.fi[FREE_CLSTS] == Add32(old(fs.vol.fi[FREE_CLSTS]), |old(fs.files)[inode.ino]|)
      ensures old(fs.Ready({})) ==> (fs.Ready({}) <==> old(fs.Returnable(inode)))
    {
      hide FatTable.CopyLayout, FatTable.Mirrored, FatTable.Holds, FatTable.InFatRegion, SlotsOf, HasPages, FsInfoOk,
           WellFormed, FileSystem.Ready, FileSystem.Returnable;
      ViewOf(dir);
      assert fs.Agrees(inode);
      fs.DropFile(inode);
    }

    /**
     * `fat32_deleteinode`: look the entry up, mark its slots deleted, give the clusters back.  Without an entry
     * nothing happens; FSINFO stays correct exactly under RetakeOk.
     */
    method DeleteInode(dir: Inode, inode: Inode, name: Name, t: FileType, ghost items: seq<Item>)
      returns (found: Option<Found>, ghost was: seq<Slot>)
      requires Valid() && dir in fs.live && inode in fs.live && inode != dir
      requires IsDir(Slots(dir.ino), items) && AllTerminated(items)
      modifies `pages, fs.vol.fat`fatSectOff, fs.vol.fat`entries, fs.vol.fat.buf, fs.vol.fat.disk, fs.vol.fi,
               fs`files, fs`live, fs`lost
      ensures Valid() && found == Lookup(items, name, t) && dir.ino in fs.files
      ensures found == None ==> pages == old(pages) && fs.files == old(fs.files) && fs.vol.fi[..] == old(fs.vol.fi[..])
      ensures found.Some? ==> fs.live == old(fs.live) - {inode} && fs.files == old(fs.files) - {inode.ino}
      ensures was == old(Slots(dir.ino))
      ensures found.Some? ==>
        && inode.ino in old(fs.files)
        && fs.vol.fi[FREE_CLSTS] == Add32(old(fs.vol.fi[FREE_CLSTS]), |old(fs.files)[inode.ino]|)
      ensures found.Some? ==>
        && found.value.begin + found.value.len <= |was|
        && Slots(dir.ino) == Marked(was, found.value.begin, found.value.len)
      ensures OnlyPagesOf(old(pages), pages, fs.files[dir.ino])
      ensures found.Some? && old(fs.Ready({})) ==> (fs.Ready({}) <==> old(fs.Returnable(inode)))
    {
      hide FatTable.CopyLayout, FatTable.Mirrored, FatTable.Holds, FatTable.InFatRegion, SlotsOf, HasPages, FsInfoOk,
           IsDir, AllTerminated, Lookup, Marked, RetakeOk, WellFormed;
      ViewOf(dir);
      ViewOf(inode);
      was := Slots(dir.ino);
      found := LookupDirentry(View(pages, dir.aPage[..dir.blocks]), name, t, items);
      if found.Some? {
        ghost var k := LookupInside(Slots(dir.ino), items, name, t);
        DeleteDirentry(dir, found.value.begin, found.value.len);
        DropInode(dir, inode);
      }
    }
  }

  // ---- the slots while a file is being registered -------------------------------------------------------------

  lemma NoMorePages(pages: map<u32, Page>)
    ensures HasPages(pages, []) && SlotsOf(pages, []) == []
  {
    assert |SlotsOf(pages, [])| == 0;
  }

  lemma FitsIsRegistered(was: seq<Slot>, now: seq<Slot>, begin: nat, file: seq<Slot>, free: nat)
    requires begin + |file| <= |was| && now == Overwritten(was, begin, file)
    ensures Registered(was, [], now, begin, file, free, true)
  {
  }

  lemma FreeHavePages(pages: map<u32, Page>, entries: seq<u32>, total: nat, reserved: set<nat>, got: seq<u32>)
    requires WereFree(entries, total, reserved, got)
    requires forall c: u32 :: 2 <= c < |entries| ==> c in pages && |pages[c]| >= SLOTS_PER_PAGE * DIRENTRY_LEN
    ensures HasPages(pages, got)
  {
    assert forall i :: 0 <= i < |got| ==> got[i] in got;
  }

  lemma OnlyPagesOfBoth(a: map<u32, Page>, b: map<u32, Page>, c: map<u32, Page>, chain: seq<u32>, got: seq<u32>)
    requires OnlyPagesOf(a, b, chain) && OnlyPagesOf(b, c, chain + got)
    ensures OnlyPagesOf(a, c, chain + got)
  {
  }

  /** Clusters that were free belong to no chain. */
  lemma FreeOutside(entries: seq<u32>, total: nat, reserved: set<nat>, chain: seq<u32>, got: seq<u32>)
    requires IsChain(entries, chain) && WereFree(entries, total, reserved, got)
    ensures forall c :: c in got ==> c !in chain
  {
    ChainClustersUsed(entries, chain);
  }

  /** The page's bytes from there on are zero. */
  ghost predicate ZeroFrom(page: Page, at: nat) {
    forall i :: at <= i < |page| ==> page[i] == 0
  }

  ghost predicate ZeroTail(slots: seq<Slot>, from: nat) {
    forall i :: from <= i < |slots| ==> slots[i][0] == 0
  }

  /** The slots of a new file's first cluster: unused, but for the dot entries of a directory. */
  ghost predicate NewFileSlots(slots: seq<Slot>, t: FileType, ino: u32, parent: u32) {
    && |slots| == SLOTS_PER_PAGE
    && (t == Dir ==> slots[0] == DotSlot(1, ino) && slots[1] == DotSlot(2, parent))
    && ZeroTail(slots, if t == Dir then 2 else 0)
  }

  /** The name leads to a slot with number `c`, as far as slots can hold it. */
  ghost predicate LeadsTo(items: seq<Item>, name: Name, c: u32) {
    match Lookup(items, name, Dir)
    case None => false
    case Some(f) =>
      && FirstCluster(f.slot) == LookupCluster(f.slot)
      && (FirstCluster(f.slot) == c <==> c % 0x1_0000 < 0x100 && c / 0x1_0000 < 0x100)
  }

  /** Exactly the dot names are found, and each of them leads where it should. */
  ghost predicate OnlyDotsLead(items: seq<Item>, ino: u32, parent: u32) {
    && AllTerminated(items) && NoDuplicates(items)
    && LeadsTo(items, [DOT], ino) && LeadsTo(items, [DOT, DOT], parent)
    && forall q, tq :: Lookup(items, q, tq).Some? <==> tq == Dir && (q == [DOT] || q == [DOT, DOT])
  }

  /** A directory in which `.` leads to `ino`, `..` to `parent`, and no other name anywhere. */
  ghost predicate DotsLead(slots: seq<Slot>, ino: u32, parent: u32) {
    && (exists items :: IsDir(slots, items))
    && forall items :: IsDir(slots, items) ==> OnlyDotsLead(items, ino, parent)
  }

  lemma DotLeadsTo(items: seq<Item>, name: Name, dots: nat, c: u32)
    requires 1 <= dots <= 2 && Lookup(items, name, Dir) == Some(Found(dots - 1, 1, DotSlot(dots, c)))
    ensures LeadsTo(items, name, c)
  {
    DotClusterIff(dots, c);
  }

  lemma NewDirectoryItems(slots: seq<Slot>, ino: u32, parent: u32)
    requires |slots| > 2 && slots[0] == DotSlot(1, ino) && slots[1] == DotSlot(2, parent) && slots[2][0] == 0
    ensures var items := [Short(DotSlot(1, ino)), Short(DotSlot(2, parent))];
            IsDir(slots, items) && OnlyDotsLead(items, ino, parent)
  {
    var items := [Short(DotSlot(1, ino)), Short(DotSlot(2, parent))];
    NewDirectory(slots, ino, parent, [DOT], Dir);
    NewDirectory(slots, ino, parent, [DOT, DOT], Dir);
    DotLeadsTo(items, [DOT], 1, ino);
    DotLeadsTo(items, [DOT, DOT], 2, parent);
    hide DotSlot, IsDir, Lookup, AllTerminated, LeadsTo, Once;
    forall q, tq
      ensures Once(items, q, tq)
      ensures Lookup(items, q, tq).Some? <==> tq == Dir && (q == [DOT] || q == [DOT, DOT])
    {
      NewDirectory(slots, ino, parent, q, tq);
    }
  }

  /** The dot slots of a new directory lead to itself and to its parent. */
  lemma NewDirectoryLeads(slots: seq<Slot>, ino: u32, parent: u32)
    requires NewFileSlots(slots, Dir, ino, parent)
    ensures DotsLead(slots, ino, parent)
  {
    assert |slots| > 2 && slots[0] == DotSlot(1, ino) && slots[1] == DotSlot(2, parent) && slots[2][0] == 0;
    NewDirectoryItems(slots, ino, parent);
    hide DotSlot, IsDir, OnlyDotsLead, NewFileSlots;
    var items := [Short(DotSlot(1, ino)), Short(DotSlot(2, parent))];
    forall x | IsDir(slots, x)
      ensures x == items
    {
      DirUnique(slots, x, items);
    }
  }

  lemma OnePage(pages: map<u32, Page>, p: u32, page: Page, t: FileType, parent: u32)
    requires |page| >= SLOTS_PER_PAGE * DIRENTRY_LEN
    requires forall k :: 0 <= k < SLOTS_PER_PAGE ==>
      SlotIn(page, k) == NewSlot(t, k, p, parent)
    ensures HasPages(pages[p := page], [p]) && NewFileSlots(SlotsOf(pages[p := page], [p]), t, p, parent)
  {
    hide DotSlot;
    var slots := SlotsOf(pages[p := page], [p]);
    assert forall k :: 0 <= k < SLOTS_PER_PAGE ==> slots[k] == SlotIn(page, k);
  }

  /**
   * What the registering loop did to the directory: the file's slots are written over the old ones, or over the old
   * ones and those of one more cluster; without a cluster to be had, only those that fitted.
   */
  ghost predicate Registered(was: seq<Slot>, more: seq<Slot>, now: seq<Slot>, begin: nat, file: seq<Slot>, free: nat,
                             ok: bool)
  {
    if begin + |file| <= |was| then
      ok && more == [] && now == Overwritten(was, begin, file)
    else if free > 0 then
      ok && |more| == SLOTS_PER_PAGE && begin + |file| <= |was + more| && now == Overwritten(was + more, begin, file)
    else
      !ok && more == [] && begin <= |was| && now == Overwritten(was, begin, file[..|was| - begin])
  }

  lemma OverwriteNext(all: seq<Slot>, begin: nat, file: seq<Slot>, m: nat)
    requires m < |file| && begin + m < |all|
    ensures Overwritten(all, begin, file[..m])[begin + m := file[m]] == Overwritten(all, begin, file[..m + 1])
  {
    OverwrittenIndex(all, begin, file[..m]);
    OverwrittenIndex(all, begin, file[..m + 1]);
    var l, r := Overwritten(all, begin, file[..m])[begin + m := file[m]], Overwritten(all, begin, file[..m + 1]);
    hide Overwritten;
    forall j | 0 <= j < |all|
      ensures l[j] == r[j]
    {
    }
  }

  lemma OverwriteBeforeGrowth(all: seq<Slot>, begin: nat, part: seq<Slot>, more: seq<Slot>)
    requires begin + |part| <= |all|
    ensures Overwritten(all, begin, part) + more == Overwritten(all + more, begin, part)
  {
    OverwrittenIndex(all, begin, part);
    OverwrittenIndex(all + more, begin, part);
    var l, r := Overwritten(all, begin, part) + more, Overwritten(all + more, begin, part);
    hide Overwritten;
    forall j | 0 <= j < |all + more|
      ensures l[j] == r[j]
    {
    }
  }

  /** When the registering loop gave up, and what it left: slots that are no row of items. */
  lemma RegisteredIff(was: seq<Slot>, pages: map<u32, Page>, got: seq<u32>, now: seq<Slot>, begin: nat, name: Name,
                      t: FileType, ino: u32, cMs: u8, free: nat, ok: bool)
    requires |name| <= LONGEST_NAME && free > 0 && HasPages(pages, got) && IsRoom(was, SlotCount(name), begin)
    requires Registered(was, SlotsOf(pages, got), now, begin, FileSlots(name, t, ino, cMs), free - 1, ok)
    ensures !ok <==> CutOff(name, |was|, Some(begin), free)
    ensures !ok ==> got == [] && forall items, x :: IsDir(was, items) ==> !IsDir(now, x)
  {
    hide IsDir, Overwritten, SlotsOf;
    if !ok {
      var file := FileSlots(name, t, ino, cMs);
      assert |SlotsOf(pages, got)| == 0;
      SlotShape(name, t, ino, cMs);
      assert !RunAt(was, begin, SlotCount(name));
      hide FileSlots;
      forall items, x | IsDir(was, items)
        ensures !IsDir(now, x)
      {
        CutOffIsNoDirectory(was, items, begin, file[..|was| - begin], x);
      }
    }
  }

  /**
   * What `fat32_createinode` promises, in terms of the directory as a map, after a registration of a faithful name that
   * was not there.  The new entry is listed with the file's type, its name, which a short one gets back in capitals,
   * and what of its number the slot can hold.  `behind` are the slots that a reader comes to after the new entry: none,
   * unless the entry was put at the end of the directory.  The listing gains the entry and nothing else exactly when
   * those slots list nothing, and then the directory is again one with terminated names and no duplicates; every lookup
   * leads where it should exactly when those slots are items that answer only to names found before them.
   */
  lemma CreatedFileIsFound(was: seq<Slot>, more: seq<Slot>, now: seq<Slot>, begin: nat, items: seq<Item>,
                           name: Name, t: FileType, ino: u32, cMs: u8, free: nat) returns (items': seq<Item>)
    requires IsDir(was, items) && AllTerminated(items) && NoDuplicates(items)
    requires IsRoom(was, SlotCount(name), begin)
    requires Writable(name) && Faithful(name) && Lookup(items, name, t) == None
    requires Registered(was, more, now, begin, FileSlots(name, t, ino, cMs), free, true)
    ensures var behind := Behind(was, more, begin, SlotCount(name));
            var f := Found(begin, SlotCount(name), ShortSlot(name, t, ino, cMs));
            var e := Dirent(ino % 0x100 + ino / 0x1_0000 % 0x100 * 0x1_0000, t,
                            if |name| <= 11 then UpperAll(name) else name);
      && ((exists x :: IsDir(now, x) && multiset(Listing(x)) == multiset(Listing(items)) + multiset{e}) <==>
          Blank(behind))
      && ((exists x :: IsDir(now, x) && Updated(x, items, name, t, f)) <==>
          (exists y :: IsDir(behind, y) && Harmless(y, items, name, t, f)))
      && (Blank(behind) ==>
          IsDir(now, items') && AllTerminated(items') && NoDuplicates(items') && Updated(items', items, name, t, f))
  {
    assert begin < |was|;
    hide IsDir, IsRoom, ShortSlot, LongSlot, Faithful, Overwritten, Lookup, NoDuplicates, AllTerminated, Blank, Behind,
         Listing, Updated, Harmless, EntryOf, Item.Ok, Item.Terminated, Item.Matches, Listed;
    var it := FileItem(name, t, ino, cMs);
    FileItemMatchesIff(name, t, ino, cMs);
    FileEntry(name, t, ino, cMs);
    FaithfulIsTerminated(name);
    MatchingIsListed(it, name, t);
    assert it.s == it.Slots()[|it.Slots()| - 1];
    assert was + [] == was;
    RegisterListsIff(was, items, more, begin, it);
    RegisterFindsIff(was, items, more, begin, it, name, t);
    items' := items;
    if Blank(Behind(was, more, begin, SlotCount(name))) {
      items' := RegisterKeeps(was, items, more, begin, it, name, t);
    }
  }

  lemma FaithfulIsTerminated(name: Name)
    ensures Faithful(name) ==> |name| <= 11 || HasDot(name)
  {
  }
}
