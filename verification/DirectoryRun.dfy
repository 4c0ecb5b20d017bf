/**
 * Whole runs over one directory: names registered, looked up and deleted in any order (kernel/vfs/fat32.c:
 * fat32_createinode, fat32_lookup_direntry, fat32_deleteinode).
 */
module DirectoryRun {
  import opened Common
  import opened DirName
  import opened DirItems
  import opened DirRegister
  import opened FreeSpace
  import opened Chains
  import opened VolumeModule
  import FatTable
  import opened FileSystemModule
  import FileSystemRun
  import opened Directory

  /** A name as a lookup sees it. */
  datatype Key = Key(text: Name, t: FileType)

  function KeyOf(name: Name, t: FileType): Key {
    Key(UpperAll(name), t)
  }

  /** Names have one key if they are equal up to the case of letters, and of one type. */
  lemma KeyOfIff(a: Name, ta: FileType, b: Name, tb: FileType)
    ensures KeyOf(a, ta) == KeyOf(b, tb) <==> SameName(a, b) && ta == tb
  {
    UpperAllIff(a, b);
  }

  type Names = map<Key, Found>

  function Get(m: Names, k: Key): Option<Found> {
    if k in m then Some(m[k]) else None
  }

  /** The finite map is the one that the items stand for. */
  ghost predicate Refines(items: seq<Item>, m: Names) {
    forall q, tq :: Lookup(items, q, tq) == Get(m, KeyOf(q, tq))
  }

  /** The names that an item answers to. */
  function KeysOf(it: Item): set<Key> {
    if it.Free? then {}
    else if it.s[11] == ARCHIVE then {KeyOf(it.Text(), Norm)}
    else if it.s[11] == SUBDIR then {KeyOf(it.Text(), Dir)}
    else {}
  }

  lemma AnswersTo(it: Item, q: Name, tq: FileType)
    ensures it.Matches(q, tq) <==> KeyOf(q, tq) in KeysOf(it)
  {
  }

  /** The map of a row of items: the first item that answers to a name counts. */
  function NamesOf(items: seq<Item>): Names {
    if items == [] then map[]
    else
      var n := |items| - 1;
      var front := NamesOf(items[..n]);
      front + map k | k in KeysOf(items[n]) - front.Keys :: Found(Offset(items, n), |items[n].Slots()|, items[n].s)
  }

  /** Every row of items stands for a finite map. */
  lemma {:induction false} NamesOfRefines(items: seq<Item>)
    ensures Refines(items, NamesOf(items))
  {
    if items == [] {
    } else {
      var n := |items| - 1;
      var front := items[..n];
      NamesOfRefines(front);
      forall q, tq
        ensures Lookup(items, q, tq) == Get(NamesOf(items), KeyOf(q, tq))
      {
        AnswersTo(items[n], q, tq);
        LastCounts(items, q, tq);
      }
    }
  }

  /** The last item counts only for names that no earlier one answers to. */
  lemma LastCounts(items: seq<Item>, q: Name, tq: FileType)
    requires items != []
    ensures var n := |items| - 1;
      Lookup(items, q, tq) ==
      if Lookup(items[..n], q, tq).Some? then Lookup(items[..n], q, tq)
      else if items[n].Matches(q, tq) then Some(Found(Offset(items, n), |items[n].Slots()|, items[n].s))
      else None
  {
    var n := |items| - 1;
    var front := items[..n];
    hide Item.Matches, Layout, Item.Slots, Lookup;
    if Lookup(front, q, tq) == None && items[n].Matches(q, tq) {
      LastFound(items, q, tq);
    } else {
      FrontFirst(front, items, q, tq);
    }
  }

  lemma LastFound(items: seq<Item>, q: Name, tq: FileType)
    requires items != [] && items[|items| - 1].Matches(q, tq) && Lookup(items[..|items| - 1], q, tq) == None
    ensures var n := |items| - 1; Lookup(items, q, tq) == Some(Found(Offset(items, n), |items[n].Slots()|, items[n].s))
  {
    var n := |items| - 1;
    var front := items[..n];
    hide Item.Matches, Layout, Item.Slots;
    assert FindFrom(front, 0, q, tq) == None;
    assert forall i :: 0 <= i < n ==> items[i] == front[i];
    LookupAt(items, n, q, tq);
  }

  /** A name that leads somewhere new is an update of the map. */
  lemma UpdateRefines(items: seq<Item>, m: Names, items': seq<Item>, name: Name, t: FileType, f: Found)
    requires Refines(items, m) && Updated(items', items, name, t, f)
    ensures Refines(items', m[KeyOf(name, t) := f])
  {
    hide Lookup;
    forall q, tq
      ensures Lookup(items', q, tq) == Get(m[KeyOf(name, t) := f], KeyOf(q, tq))
    {
      assert Lookup(items', q, tq) == MapWith(items, name, t, f, q, tq);
    }
  }

  /** A name that leads nowhere any more is gone from the map. */
  lemma RemoveRefines(items: seq<Item>, m: Names, items': seq<Item>, name: Name, t: FileType)
    requires Refines(items, m)
    requires forall q, tq :: Lookup(items', q, tq) == if SameKey(q, tq, name, t) then None else Lookup(items, q, tq)
    ensures Refines(items', m - {KeyOf(name, t)})
  {
    hide Lookup;
    forall q, tq
      ensures Lookup(items', q, tq) == Get(m - {KeyOf(name, t)}, KeyOf(q, tq))
    {
      assert Lookup(items', q, tq) == if SameKey(q, tq, name, t) then None else Lookup(items, q, tq);
    }
  }

  // ---- deciding beforehand -----------------------------------------------------------------------------------

  /** There is one place where the search for room can stop. */
  lemma RoomUnique(slots: seq<Slot>, need: nat, a: nat, b: nat)
    requires IsRoom(slots, need, a)
    ensures IsRoom(slots, need, b) ==> a == b
    ensures !NoRoom(slots, need)
  {
  }

  /** Whether the slots from `from` on list nothing. */
  method ScanBlank(v: View, from: nat) returns (blank: bool)
    requires v.Ok() && from <= |v.Slots()|
    ensures blank <==> Blank(v.Slots()[from..])
  {
    hide View.Ok, View.Slots;
    ghost var rest := v.Slots()[from..];
    var i := from;
    while true
      invariant from <= i <= |v.Slots()| && forall j :: 0 <= j < i - from ==> Idle(rest[j])
      decreases |v.Slots()| - i
    {
      var r := ReadDr(v, i);
      if r == None || r.value[0] == 0 {
        assert IdleTo(rest, i - from);
        return true;
      }
      assert r.value == rest[i - from];
      if r.value[0] != DELETED && r.value[11] != VOLNAME {
        NotBlank(rest, i - from);
        return false;
      }
      i := i + 1;
    }
  }

  lemma NotBlank(slots: seq<Slot>, i: nat)
    requires i < |slots| && slots[i][0] != 0 && !Idle(slots[i]) && forall j :: 0 <= j < i ==> Idle(slots[j])
    ensures !Blank(slots)
  {
    forall e | 0 <= e <= |slots|
      ensures !IdleTo(slots, e)
    {
    }
  }

  // ---- one operation -----------------------------------------------------------------------------------------

  /** The directory is in order, these are its items, and `loaded` are inodes in memory of some of its files. */
  ghost predicate InOrder(st: DirStore, dir: Inode, items: seq<Item>, loaded: map<Key, Inode>)
    reads st, st.fs, st.fs.vol.Repr(), st.fs.live, set n | n in st.fs.live :: n.aPage
  {
    && st.Valid() && st.fs.Ready({}) && dir in st.fs.live && dir.ino in st.fs.files
    && IsDir(st.Slots(dir.ino), items) && AllTerminated(items) && NoDuplicates(items)
    && (forall k :: k in loaded ==> loaded[k] in st.fs.live && loaded[k] != dir)
    && (forall k, l :: k in loaded && l in loaded && k != l ==> loaded[k] != loaded[l])
  }

  /** The slots of the directory, the map that they stand for, the files of the volume, and the count of clusters. */
  datatype State = State(slots: seq<Slot>, names: Names, files: map<u32, seq<u32>>, free: u32)

  ghost function StateOf(st: DirStore, dir: Inode, names: Names): State
    requires st.Valid() && dir.ino in st.fs.files
    reads st, st.fs, st.fs.vol.Repr(), st.fs.live, set n | n in st.fs.live :: n.aPage
  {
    State(st.Slots(dir.ino), names, st.fs.files, st.fs.vol.fi[FREE_CLSTS])
  }

  /** Where the search for room stops. */
  ghost predicate StopsAt(slots: seq<Slot>, need: nat, begin: Option<nat>) {
    match begin
    case None => NoRoom(slots, need)
    case Some(b) => IsRoom(slots, need, b)
  }

  lemma RoomOnly(slots: seq<Slot>, need: nat, begin: Option<nat>)
    requires StopsAt(slots, need, begin)
    ensures forall b: nat :: IsRoom(slots, need, b) <==> begin == Some(b)
  {
    hide IsRoom, NoRoom;
    forall b: nat | IsRoom(slots, need, b)
      ensures begin == Some(b)
    {
      RoomUnique(slots, need, b, if begin.Some? then begin.value else b);
    }
  }

  lemma AffordableIff(st: DirStore, dir: Inode, name: Name, begin: Option<nat>)
    requires st.Valid() && dir.ino in st.fs.files && StopsAt(st.Slots(dir.ino), SlotCount(name), begin)
    ensures st.Affordable(dir, name) <==>
            begin == None || st.fs.Enough(Needed(name, |st.Slots(dir.ino)|, begin.value))
  {
    hide FileSystem.Valid, DirStore.Slots, FileSystem.Enough, Needed, IsRoom, StopsAt;
    RoomOnly(st.Slots(dir.ino), SlotCount(name), begin);
  }

  /** Before a creation: where the entry will go, and whether there will be clusters for it, and for all of it. */
  method MayCreate(st: DirStore, dir: Inode, name: Name, ghost items: seq<Item>, ghost loaded: map<Key, Inode>)
    returns (begin: Option<nat>, atEnd: bool, affordable: bool, cut: bool)
    requires InOrder(st, dir, items, loaded) && |name| <= LONGEST_NAME
    modifies st.fs.vol.fat`fatSectOff, st.fs.vol.fat.buf, st.fs.vol.fat.disk
    ensures InOrder(st, dir, items, loaded) && st.Slots(dir.ino) == old(st.Slots(dir.ino))
    ensures st.fs.vol.fi[..] == old(st.fs.vol.fi[..])
    ensures StopsAt(st.Slots(dir.ino), SlotCount(name), begin)
    ensures begin.Some? ==> begin.value < |st.Slots(dir.ino)| && (atEnd <==> st.Slots(dir.ino)[begin.value][0] == 0)
    ensures affordable <==> st.Affordable(dir, name)
    ensures cut <==> CutOff(name, |st.Slots(dir.ino)|, begin, st.fs.vol.fi[FREE_CLSTS])
  {
    hide FatTable.CopyLayout, FatTable.Mirrored, FatTable.Holds, FatTable.InFatRegion, SlotsOf, HasPages, FsInfoOk,
         WellFormed, IsDir, AllTerminated, NoDuplicates, IsRoom, NoRoom, FileSystem.Mapped;
    var n := FileSystemRun.CountFree(st.fs);
    st.ViewOf(dir);
    var dr;
    var v := View(st.pages, dir.aPage[..dir.blocks]);
    begin, dr := SearchRoom(v, SlotCount(name));
    AffordableIff(st, dir, name, begin);
    var free := st.fs.vol.fi[FREE_CLSTS];
    var size := SLOTS_PER_PAGE * dir.blocks;
    match begin
    case None =>
      affordable, cut, atEnd := true, false, false;
    case Some(b) =>
      var r := ReadDr(v, b);
      atEnd := r.value[0] == 0;
      affordable := n >= free || Needed(name, size, b) <= n;
      cut := free == 1 && b + SlotCount(name) > size;
  }

  /**
   * A new entry: its first slot, its file's number, the byte that the code leaves alone, and the clusters by which the
   * directory grew for it, with the slots in them.
   */
  datatype Made = Made(begin: nat, ino: u32, cMs: u8, got: seq<u32>, more: seq<Slot>)

  /** The names after a registration. */
  function With(names: Names, name: Name, t: FileType, m: Made): Names
    requires |name| <= LONGEST_NAME
  {
    names[KeyOf(name, t) := Found(m.begin, SlotCount(name), ShortSlot(name, t, m.ino, m.cMs))]
  }

  /**
   * A new name in directory `d`, whose slots are written where the search stops, over those of one more cluster if need
   * be, and a new file of one cluster.
   */
  ghost predicate Adds(v: State, w: State, d: u32, name: Name, t: FileType, m: Made)
    requires |name| <= LONGEST_NAME
  {
    var need := SlotCount(name);
    && IsRoom(v.slots, need, m.begin)
    && |m.more| == (if m.begin + need <= |v.slots| then 0 else SLOTS_PER_PAGE)
    && m.begin + need <= |v.slots + m.more|
    && w.slots == Overwritten(v.slots + m.more, m.begin, FileSlots(name, t, m.ino, m.cMs))
    && w.names == With(v.names, name, t, m)
    && w.free == v.free - Needed(name, |v.slots|, m.begin)
    && d in v.files && |m.got| == Needed(name, |v.slots|, m.begin) - 1 && m.ino !in v.files && m.ino !in m.got
    && w.files == v.files[d := v.files[d] + m.got][m.ino := [m.ino]]
  }

  lemma RegisteredAdds(v: State, w: State, d: u32, name: Name, t: FileType, m: Made)
    requires |name| <= LONGEST_NAME && IsRoom(v.slots, SlotCount(name), m.begin)
    requires |m.more| == SLOTS_PER_PAGE * |m.got|
    requires v.free > 0 && w.free as int == v.free as int - 1 - |m.got|
    requires Registered(v.slots, m.more, w.slots, m.begin, FileSlots(name, t, m.ino, m.cMs), v.free - 1, true)
    requires w.names == With(v.names, name, t, m)
    requires d in v.files && m.ino !in v.files && m.ino !in m.got
    requires w.files == v.files[d := v.files[d] + m.got][m.ino := [m.ino]]
    ensures Adds(v, w, d, name, t, m)
  {
    hide FileSlots, Overwritten, ShortSlot, IsRoom;
    assert v.slots + [] == v.slots;
  }

  /** A creation of a new name in a directory in order, with clusters enough. */
  method CreateNew(st: DirStore, dir: Inode, name: Name, t: FileType, begin: Option<nat>, ghost items: seq<Item>,
                   ghost names: Names, ghost loaded: map<Key, Inode>)
    returns (inode: Inode?, ghost m: Made)
    requires InOrder(st, dir, items, loaded) && |name| <= LONGEST_NAME && st.Affordable(dir, name)
    requires StopsAt(st.Slots(dir.ino), SlotCount(name), begin)
    requires !CutOff(name, |st.Slots(dir.ino)|, begin, st.fs.vol.fi[FREE_CLSTS])
    modifies st`pages, st.fs.vol.fat`fatSectOff, st.fs.vol.fat`entries, st.fs.vol.fat.buf, st.fs.vol.fat.disk,
             st.fs.vol.fi, dir`blocks, dir`aPage, st.fs`files, st.fs`lost, st.fs`live
    ensures st.Valid() && st.fs.Ready({}) && dir in st.fs.live && dir.ino in st.fs.files
    ensures forall k :: k in loaded ==> loaded[k] in st.fs.live
    ensures inode == null <==> begin == None || old(st.fs.vol.fi[FREE_CLSTS]) == 0
    ensures inode == null ==> StateOf(st, dir, names) == old(StateOf(st, dir, names))
    ensures inode != null ==>
      && fresh(inode) && inode in st.fs.live && inode.ino == m.ino && begin == Some(m.begin)
      && Adds(old(StateOf(st, dir, names)), StateOf(st, dir, With(names, name, t, m)), dir.ino, name, t, m)
      && Registered(old(st.Slots(dir.ino)), m.more, st.Slots(dir.ino), m.begin, FileSlots(name, t, m.ino, m.cMs),
                    old(st.fs.vol.fi[FREE_CLSTS]) - 1, true)
  {
    hide FatTable.CopyLayout, FatTable.Mirrored, FatTable.Holds, FatTable.InFatRegion, SlotsOf, FileSlots, Zeros,
         FsInfoOk, WellFormed, HasPages, IsRoom, NoRoom, IsDir, AllTerminated, NoDuplicates, ShortSlot, Overwritten,
         DotsLead, NewFileSlots, Registered, OnlyPagesOf;
    ghost var was, pages := st.Slots(dir.ino), st.pages;
    ghost var found, got, cMs;
    inode, found, got, cMs := st.CreateInode(dir, name, t);
    SameStop(was, SlotCount(name), begin, found);
    m := Made(0, 0, 0, [], []);
    if inode != null {
      m := Made(begin.value, inode.ino, cMs, got, SlotsOf(pages, got));
      RegisteredAdds(old(StateOf(st, dir, names)), StateOf(st, dir, With(names, name, t, m)), dir.ino, name, t, m);
    }
  }

  lemma SameStop(slots: seq<Slot>, need: nat, a: Option<nat>, b: Option<nat>)
    requires StopsAt(slots, need, a) && StopsAt(slots, need, b)
    ensures a == b
  {
    hide IsRoom, NoRoom;
    if a.Some? {
      RoomUnique(slots, need, a.value, if b.Some? then b.value else 0);
    }
    if b.Some? {
      RoomUnique(slots, need, b.value, if a.Some? then a.value else 0);
    }
  }

  lemma TailBehind(was: seq<Slot>, more: seq<Slot>, now: seq<Slot>, b: nat, file: seq<Slot>)
    requires b < |was| && b + |file| <= |was + more| && now == Overwritten(was + more, b, file)
    ensures was[b][0] == 0 ==> now[b + |file|..] == Behind(was, more, b, |file|)
    ensures was[b][0] != 0 ==> Blank(Behind(was, more, b, |file|))
  {
    OverwrittenIndex(was + more, b, file);
    if was[b][0] != 0 {
      StoppedTail([]);
    }
  }

  lemma Absent(items: seq<Item>, names: Names, name: Name, t: FileType)
    requires Refines(items, names)
    ensures Lookup(items, name, t) == Get(names, KeyOf(name, t))
  {
  }

  /** The new entry as an update of the map, if nothing is listed behind it. */
  lemma Entered(was: seq<Slot>, now: seq<Slot>, items: seq<Item>, names: Names, name: Name,
                t: FileType, m: Made, free: nat) returns (items': seq<Item>)
    requires IsDir(was, items) && AllTerminated(items) && NoDuplicates(items) && Refines(items, names)
    requires Writable(name) && Faithful(name) && KeyOf(name, t) !in names && IsRoom(was, SlotCount(name), m.begin)
    requires m.begin < |was|
    requires Registered(was, m.more, now, m.begin, FileSlots(name, t, m.ino, m.cMs), free, true)
    ensures m.begin + SlotCount(name) <= |was + m.more|
    ensures Blank(Behind(was, m.more, m.begin, SlotCount(name))) ==>
      && IsDir(now, items') && AllTerminated(items') && NoDuplicates(items')
      && Refines(items', With(names, name, t, m))
  {
    hide FileSlots, IsRoom, IsDir, AllTerminated, NoDuplicates, ShortSlot, Overwritten, Blank, Behind, Faithful, Lookup,
         Refines;
    Absent(items, names, name, t);
    assert was + [] == was;
    items' := CreatedFileIsFound(was, m.more, now, m.begin, items, name, t, m.ino, m.cMs, free);
    if Blank(Behind(was, m.more, m.begin, SlotCount(name))) {
      UpdateRefines(items, names, items', name, t, Found(m.begin, SlotCount(name), ShortSlot(name, t, m.ino, m.cMs)));
    }
  }

  /** A look at what stands behind a new entry; `atEnd` tells that it was put where the directory ended. */
  method Inspect(v: View, name: Name, t: FileType, b: nat, atEnd: bool, ghost was: seq<Slot>, ghost m: Made,
                 ghost free: nat, ghost items: seq<Item>, ghost names: Names)
    returns (blank: bool, ghost items': seq<Item>)
    requires v.Ok() && IsDir(was, items) && AllTerminated(items) && NoDuplicates(items) && Refines(items, names)
    requires Writable(name) && Faithful(name) && KeyOf(name, t) !in names && IsRoom(was, SlotCount(name), b)
    requires b == m.begin < |was| && (atEnd <==> was[b][0] == 0)
    requires Registered(was, m.more, v.Slots(), b, FileSlots(name, t, m.ino, m.cMs), free, true)
    ensures b + SlotCount(name) <= |was + m.more| && (blank <==> Blank(Behind(was, m.more, b, SlotCount(name))))
    ensures blank ==>
      && IsDir(v.Slots(), items') && AllTerminated(items') && NoDuplicates(items')
      && Refines(items', With(names, name, t, m))
  {
    hide View.Ok, View.Slots, FileSlots, IsRoom, IsDir, AllTerminated, NoDuplicates, Overwritten, Blank, Behind,
         Faithful, Refines, With, KeyOf;
    items' := Entered(was, v.Slots(), items, names, name, t, m, free);
    assert was + [] == was;
    TailBehind(was, m.more, v.Slots(), b, FileSlots(name, t, m.ino, m.cMs));
    blank := true;
    if atEnd {
      blank := ScanBlank(v, b + SlotCount(name));
    }
  }

  /** A creation, with a look at what stands behind the new entry. */
  method StepCreate(st: DirStore, dir: Inode, name: Name, t: FileType, begin: Option<nat>, atEnd: bool,
                    ghost items: seq<Item>, ghost names: Names, ghost loaded: map<Key, Inode>)
    returns (inode: Inode?, blank: bool, ghost items': seq<Item>, ghost m: Made)
    requires InOrder(st, dir, items, loaded) && Refines(items, names) && KeyOf(name, t) !in names
    requires Writable(name) && Faithful(name) && st.Affordable(dir, name)
    requires StopsAt(st.Slots(dir.ino), SlotCount(name), begin)
    requires !CutOff(name, |st.Slots(dir.ino)|, begin, st.fs.vol.fi[FREE_CLSTS])
    requires begin.Some? ==> begin.value < |st.Slots(dir.ino)| && (atEnd <==> st.Slots(dir.ino)[begin.value][0] == 0)
    modifies st`pages, st.fs.vol.fat`fatSectOff, st.fs.vol.fat`entries, st.fs.vol.fat.buf, st.fs.vol.fat.disk,
             st.fs.vol.fi, dir`blocks, dir`aPage, st.fs`files, st.fs`lost, st.fs`live
    ensures st.Valid() && dir.ino in st.fs.files
    ensures inode == null <==> begin == None || old(st.fs.vol.fi[FREE_CLSTS]) == 0
    ensures inode == null ==> InOrder(st, dir, items, loaded) && StateOf(st, dir, names) == old(StateOf(st, dir, names))
    ensures inode != null ==>
      && fresh(inode) && inode.ino == m.ino
      && Adds(old(StateOf(st, dir, names)), StateOf(st, dir, With(names, name, t, m)), dir.ino, name, t, m)
    ensures inode != null ==> (blank <==> Blank(Behind(old(st.Slots(dir.ino)), m.more, m.begin, SlotCount(name))))
    ensures var n := inode; n != null && blank ==>
      && InOrder(st, dir, items', loaded[KeyOf(name, t) := n])
      && Refines(items', With(names, name, t, m))
  {
    hide FatTable.CopyLayout, FatTable.Mirrored, FatTable.Holds, FatTable.InFatRegion, SlotsOf, FileSlots, HasPages,
         FsInfoOk, WellFormed, IsRoom, NoRoom, IsDir, AllTerminated, NoDuplicates, ShortSlot, Overwritten, Blank,
         Behind, Faithful, Lookup, Refines, Adds, Registered, With, FileSystem.Mapped;
    ghost var was, free := st.Slots(dir.ino), st.fs.vol.fi[FREE_CLSTS];
    items', blank := items, true;
    inode, m := CreateNew(st, dir, name, t, begin, items, names, loaded);
    if inode != null {
      st.ViewOf(dir);
      blank, items' := Inspect(View(st.pages, dir.aPage[..dir.blocks]), name, t, begin.value, atEnd, was, m, free - 1,
                               items, names);
    }
  }

  /** A lookup. */
  method StepFind(st: DirStore, dir: Inode, name: Name, t: FileType, ghost items: seq<Item>, ghost names: Names,
                  ghost loaded: map<Key, Inode>) returns (found: Option<Found>)
    requires InOrder(st, dir, items, loaded) && Refines(items, names)
    ensures found == Get(names, KeyOf(name, t))
    ensures InOrder(st, dir, items, loaded) && StateOf(st, dir, names) == old(StateOf(st, dir, names))
  {
    hide FatTable.CopyLayout, FatTable.Mirrored, FatTable.Holds, FatTable.InFatRegion, SlotsOf, HasPages, WellFormed,
         IsDir, Lookup, FsInfoOk;
    st.ViewOf(dir);
    found := LookupDirentry(View(st.pages, dir.aPage[..dir.blocks]), name, t, items);
    Absent(items, names, name, t);
  }

  /** The deletion of a file that is in memory and whose clusters can go back without leaving a stale hint. */
  method StepDelete(st: DirStore, dir: Inode, inode: Inode, name: Name, t: FileType, ghost items: seq<Item>,
                    ghost names: Names, ghost loaded: map<Key, Inode>) returns (ghost items': seq<Item>)
    requires InOrder(st, dir, items, loaded) && Refines(items, names) && KeyOf(name, t) in names
    requires KeyOf(name, t) in loaded && loaded[KeyOf(name, t)] == inode && st.fs.Returnable(inode)
    modifies st`pages, st.fs.vol.fat`fatSectOff, st.fs.vol.fat`entries, st.fs.vol.fat.buf, st.fs.vol.fat.disk,
             st.fs.vol.fi, st.fs`files, st.fs`live, st.fs`lost
    ensures InOrder(st, dir, items', loaded - {KeyOf(name, t)}) && Refines(items', names - {KeyOf(name, t)})
    ensures var f := names[KeyOf(name, t)];
      && f.begin + f.len <= |old(st.Slots(dir.ino))|
      && st.Slots(dir.ino) == Marked(old(st.Slots(dir.ino)), f.begin, f.len)
    ensures inode.ino in old(st.fs.files) && st.fs.files == old(st.fs.files) - {inode.ino}
    ensures st.fs.vol.fi[FREE_CLSTS] == Add32(old(st.fs.vol.fi[FREE_CLSTS]), |old(st.fs.files)[inode.ino]|)
  {
    hide FatTable.CopyLayout, FatTable.Mirrored, FatTable.Holds, FatTable.InFatRegion, SlotsOf, HasPages, WellFormed,
         IsDir, Lookup, FsInfoOk, AllTerminated, NoDuplicates, Marked, RetakeOk, Refines, FileSystem.Mapped,
         FileSystem.Returnable, FatTable.FatBuffer.Valid;
    Absent(items, names, name, t);
    var found;
    ghost var was;
    found, was := st.DeleteInode(dir, inode, name, t, items);
    items' := DeleteMeans(was, items, name, t);
    RemoveRefines(items, names, items', name, t);
  }

  /** Before a deletion: whether the clusters can go back without leaving a stale hint. */
  method MayDelete(st: DirStore, dir: Inode, inode: Inode, ghost items: seq<Item>, ghost names: Names,
                   ghost loaded: map<Key, Inode>) returns (ok: bool)
    requires InOrder(st, dir, items, loaded) && inode in st.fs.live
    modifies st.fs.vol.fat`fatSectOff, st.fs.vol.fat.buf, st.fs.vol.fat.disk
    ensures InOrder(st, dir, items, loaded) && StateOf(st, dir, names) == old(StateOf(st, dir, names))
    ensures ok == st.fs.Returnable(inode) == old(st.fs.Returnable(inode))
  {
    hide FatTable.CopyLayout, FatTable.Mirrored, FatTable.Holds, FatTable.InFatRegion, SlotsOf, HasPages, FsInfoOk,
         WellFormed, IsDir, AllTerminated, NoDuplicates, RetakeOk;
    ok := FileSystemRun.HintSurvives(st.fs, inode);
  }

  // ---- runs --------------------------------------------------------------------------------------------------

  datatype Op =
    | Create(name: Name, t: FileType)
    | Find(name: Name, t: FileType)
    | Delete(name: Name, t: FileType)

  /** The number as far as a slot can hold it. */
  function Held(ino: u32): nat {
    ino % 0x100 + ino / 0x1_0000 % 0x100 * 0x1_0000
  }

  /** The entries of the inodes in memory hold their numbers. */
  ghost predicate Tied(loaded: map<Key, Inode>, names: Names) {
    forall k :: k in loaded ==> k in names && FirstCluster(names[k].slot) == Held(loaded[k].ino)
  }

  lemma TiedMore(loaded: map<Key, Inode>, names: Names, name: Name, t: FileType, m: Made, inode: Inode)
    requires Tied(loaded, names) && |name| <= LONGEST_NAME && inode.ino == m.ino
    ensures Tied(loaded[KeyOf(name, t) := inode], With(names, name, t, m))
  {
    ClusterRoundTripIff(name, t, m.ino, m.cMs);
    hide ShortSlot, FirstCluster, KeyOf;
  }

  lemma TiedLess(loaded: map<Key, Inode>, names: Names, key: Key)
    requires Tied(loaded, names)
    ensures Tied(loaded - {key}, names - {key})
    ensures key in loaded ==> key in names && FirstCluster(names[key].slot) == Held(loaded[key].ino)
  {
  }

  /** What an operation does in directory `d`. */
  ghost predicate Effect(d: u32, op: Op, v: State, w: State) {
    var key := KeyOf(op.name, op.t);
    match op
    case Create(name, t) =>
      if key in v.names || NoRoom(v.slots, SlotCount(name)) || v.free == 0 then w == v
      else |name| <= LONGEST_NAME && exists m :: Adds(v, w, d, name, t, m)
    case Find(_, _) => w == v
    case Delete(_, _) =>
      if key !in v.names then w == v
      else
        var f := v.names[key];
        && w.names == v.names - {key}
        && f.begin + f.len <= |v.slots| && w.slots == Marked(v.slots, f.begin, f.len)
        && exists h :: GivenBack(v, w, f.slot, h)
  }

  /** File `h`, whose number the slot holds, is gone, and its clusters are counted again. */
  ghost predicate GivenBack(v: State, w: State, slot: Slot, h: u32) {
    && FirstCluster(slot) == Held(h) && h in v.files
    && w.files == v.files - {h} && w.free == Add32(v.free, |v.files[h]|)
  }

  /**
   * The operations before which a run stops: the creation of a name that its slots cannot hold, or for which the
   * search for clusters would not end well, or for which the directory would have to grow when the file has the last
   * cluster; and the deletion of a file that is not in memory, or whose clusters would leave a stale hint.
   */
  ghost predicate Stops(st: DirStore, dir: Inode, loaded: map<Key, Inode>, names: Names, op: Op)
    requires st.Valid() && dir.ino in st.fs.files
    reads st, st.fs, st.fs.vol.Repr(), st.fs.live, set n | n in st.fs.live :: n.aPage
  {
    var key := KeyOf(op.name, op.t);
    match op
    case Create(name, _) =>
      key !in names &&
      (!Writable(name) || !Faithful(name) || !st.Affordable(dir, name) ||
       exists b :: IsRoom(st.Slots(dir.ino), SlotCount(name), b) &&
                   CutOff(name, |st.Slots(dir.ino)|, Some(b), st.fs.vol.fi[FREE_CLSTS]))
    case Find(_, _) => false
    case Delete(_, _) => key in names && (key !in loaded || !st.fs.Returnable(loaded[key]))
  }

  /** A creation behind whose entry something is listed. */
  ghost predicate Haunted(d: u32, op: Op, v: State, now: seq<Slot>) {
    && op.Create? && |op.name| <= LONGEST_NAME && KeyOf(op.name, op.t) !in v.names
    && exists w, m :: Adds(v, w, d, op.name, op.t, m) && w.slots == now &&
         !Blank(Behind(v.slots, m.more, m.begin, SlotCount(op.name)))
  }

  /** How an operation ended: done, not begun, or with something listed behind the new entry. */
  datatype Outcome = Done | NotBegun | Spoilt

  method Make(st: DirStore, dir: Inode, name: Name, t: FileType, ghost items: seq<Item>, ghost names: Names,
              loaded: map<Key, Inode>)
    returns (outcome: Outcome, loaded': map<Key, Inode>, ghost items': seq<Item>, ghost names': Names)
    requires InOrder(st, dir, items, loaded) && Refines(items, names) && KeyOf(name, t) !in names
    requires Tied(loaded, names)
    modifies st`pages, st.fs.vol.fat`fatSectOff, st.fs.vol.fat`entries, st.fs.vol.fat.buf, st.fs.vol.fat.disk,
             st.fs.vol.fi, dir`blocks, dir`aPage, st.fs`files, st.fs`lost, st.fs`live
    ensures st.Valid() && dir.ino in st.fs.files
    ensures outcome.Done? ==>
      && InOrder(st, dir, items', loaded') && Refines(items', names') && Tied(loaded', names')
      && Effect(dir.ino, Create(name, t), old(StateOf(st, dir, names)), StateOf(st, dir, names'))
    ensures outcome.NotBegun? ==>
      && InOrder(st, dir, items, loaded) && StateOf(st, dir, names) == old(StateOf(st, dir, names))
      && Stops(st, dir, loaded, names, Create(name, t))
    ensures outcome.Spoilt? ==> Haunted(dir.ino, Create(name, t), old(StateOf(st, dir, names)), st.Slots(dir.ino))
  {
    hide FatTable.CopyLayout, FatTable.Mirrored, FatTable.Holds, FatTable.InFatRegion, SlotsOf, FileSlots, HasPages,
         FsInfoOk, WellFormed, IsRoom, NoRoom, IsDir, AllTerminated, NoDuplicates, Blank, Behind, Faithful, Refines,
         Adds, DirStore.Affordable, FileSystem.Mapped;
    loaded', items', names' := loaded, items, names;
    if !Writable(name) || !Faithful(name) {
      return NotBegun, loaded', items', names';
    }
    var begin, atEnd, affordable, cut := MayCreate(st, dir, name, items, loaded);
    if !affordable || cut {
      return NotBegun, loaded', items', names';
    }
    ghost var v, m := StateOf(st, dir, names), Made(0, 0, 0, [], []);
    var inode, blank;
    inode, blank, items', m := StepCreate(st, dir, name, t, begin, atEnd, items, names, loaded);
    if inode == null {
      return Done, loaded, items, names;
    }
    names' := With(names, name, t, m);
    RoomUnique(v.slots, SlotCount(name), begin.value, begin.value);
    assert Adds(v, StateOf(st, dir, names'), dir.ino, name, t, m);
    if !blank {
      return Spoilt, loaded', items', names';
    }
    TiedMore(loaded, names, name, t, m, inode);
    loaded' := loaded[KeyOf(name, t) := inode];
    outcome := Done;
  }

  method Remove(st: DirStore, dir: Inode, name: Name, t: FileType, ghost items: seq<Item>, ghost names: Names,
                loaded: map<Key, Inode>)
    returns (outcome: Outcome, loaded': map<Key, Inode>, ghost items': seq<Item>, ghost names': Names)
    requires InOrder(st, dir, items, loaded) && Refines(items, names) && KeyOf(name, t) in names
    requires Tied(loaded, names)
    modifies st`pages, st.fs.vol.fat`fatSectOff, st.fs.vol.fat`entries, st.fs.vol.fat.buf, st.fs.vol.fat.disk,
             st.fs.vol.fi, st.fs`files, st.fs`lost, st.fs`live
    ensures outcome.Done? ==>
      && InOrder(st, dir, items', loaded') && Refines(items', names') && Tied(loaded', names')
      && Effect(dir.ino, Delete(name, t), old(StateOf(st, dir, names)), StateOf(st, dir, names'))
    ensures outcome.NotBegun? ==>
      && InOrder(st, dir, items, loaded) && StateOf(st, dir, names) == old(StateOf(st, dir, names))
      && Stops(st, dir, loaded, names, Delete(name, t))
    ensures !outcome.Spoilt?
  {
    hide FatTable.CopyLayout, FatTable.Mirrored, FatTable.Holds, FatTable.InFatRegion, SlotsOf, HasPages, FsInfoOk,
         WellFormed, IsDir, AllTerminated, NoDuplicates, Refines, RetakeOk, Marked, FirstCluster, Held, KeyOf, Tied,
         FileSystem.Mapped;
    loaded', items', names' := loaded, items, names;
    var key := KeyOf(name, t);
    if key !in loaded {
      return NotBegun, loaded', items', names';
    }
    var inode := loaded[key];
    var ok := MayDelete(st, dir, inode, items, names, loaded);
    if !ok {
      return NotBegun, loaded', items', names';
    }
    ghost var v := StateOf(st, dir, names);
    items' := StepDelete(st, dir, inode, name, t, items, names, loaded);
    TiedLess(loaded, names, key);
    loaded', names' := loaded - {key}, names - {key};
    assert GivenBack(v, StateOf(st, dir, names'), names[key].slot, inode.ino);
    outcome := Done;
  }

  /** One operation: files are created only under names that are not there yet, and deleted only if they are. */
  method Step(st: DirStore, dir: Inode, op: Op, ghost items: seq<Item>, ghost names: Names, loaded: map<Key, Inode>)
    returns (outcome: Outcome, found: Option<Found>, loaded': map<Key, Inode>, ghost items': seq<Item>,
             ghost names': Names)
    requires InOrder(st, dir, items, loaded) && Refines(items, names) && Tied(loaded, names)
    modifies st`pages, st.fs.vol.fat`fatSectOff, st.fs.vol.fat`entries, st.fs.vol.fat.buf, st.fs.vol.fat.disk,
             st.fs.vol.fi, dir`blocks, dir`aPage, st.fs`files, st.fs`lost, st.fs`live
    ensures st.Valid() && dir.ino in st.fs.files && found == Get(names, KeyOf(op.name, op.t))
    ensures outcome.Done? ==>
      && InOrder(st, dir, items', loaded') && Refines(items', names') && Tied(loaded', names')
      && Effect(dir.ino, op, old(StateOf(st, dir, names)), StateOf(st, dir, names'))
    ensures outcome.NotBegun? ==>
      && InOrder(st, dir, items, loaded) && StateOf(st, dir, names) == old(StateOf(st, dir, names))
      && Stops(st, dir, loaded, names, op)
    ensures outcome.Spoilt? ==> Haunted(dir.ino, op, old(StateOf(st, dir, names)), st.Slots(dir.ino))
  {
    hide FatTable.CopyLayout, FatTable.Mirrored, FatTable.Holds, FatTable.InFatRegion, SlotsOf, HasPages, FsInfoOk,
         WellFormed, IsDir, AllTerminated, NoDuplicates, Refines, Stops, Haunted, DirStore.Slots;
    loaded', items', names' := loaded, items, names;
    found := StepFind(st, dir, op.name, op.t, items, names, loaded);
    match op
    case Create(name, t) =>
      if found == None {
        outcome, loaded', items', names' := Make(st, dir, name, t, items, names, loaded);
      } else {
        outcome := Done;
      }
    case Find(_, _) =>
      outcome := Done;
    case Delete(name, t) =>
      if found.Some? {
        outcome, loaded', items', names' := Remove(st, dir, name, t, items, names, loaded);
      } else {
        outcome := Done;
      }
  }

  /**
   * Any run of creations, lookups and deletions of names in one directory, from any state in which the directory is in
   * order: it refines a finite map from names, up to case, to entries.  `found` are the entries that the names led to
   * when their turn came, and `trace` shows slots, map and count between the operations, each of which had its effect.
   * The run ends early only before an operation that stops it, or with a creation behind whose entry something is
   * listed.
   */
  method Run(st: DirStore, dir: Inode, ops: seq<Op>, ghost items: seq<Item>, loaded: map<Key, Inode>)
    returns (found: seq<Option<Found>>, n: nat, outcome: Outcome, loaded': map<Key, Inode>, ghost items': seq<Item>,
             ghost trace: seq<State>)
    requires InOrder(st, dir, items, loaded) && Tied(loaded, NamesOf(items))
    modifies st`pages, st.fs.vol.fat`fatSectOff, st.fs.vol.fat`entries, st.fs.vol.fat.buf, st.fs.vol.fat.disk,
             st.fs.vol.fi, dir`blocks, dir`aPage, st.fs`files, st.fs`lost, st.fs`live
    ensures st.Valid() && dir.ino in st.fs.files && |trace| == n + 1 && n <= |ops| && n <= |found|
    ensures trace[0] == old(StateOf(st, dir, NamesOf(items)))
    ensures forall i :: 0 <= i < n ==> Effect(dir.ino, ops[i], trace[i], trace[i + 1])
    ensures forall i :: 0 <= i < n ==> found[i] == Get(trace[i].names, KeyOf(ops[i].name, ops[i].t))
    ensures outcome.Done? ==> n == |ops|
    ensures !outcome.Spoilt? ==>
      && InOrder(st, dir, items', loaded') && Refines(items', trace[n].names) && Tied(loaded', trace[n].names)
      && trace[n] == StateOf(st, dir, trace[n].names)
    ensures outcome.NotBegun? ==> n < |ops| && Stops(st, dir, loaded', trace[n].names, ops[n])
    ensures outcome.Spoilt? ==> n < |ops| && Haunted(dir.ino, ops[n], trace[n], st.Slots(dir.ino))
  {
    hide InOrder, Refines, DirStore.Valid, DirStore.Slots, Effect, Haunted, Stops, NamesOf, Get, KeyOf, Tied;
    ghost var names := NamesOf(items);
    NamesOfRefines(items);
    Sane(st, dir, items, loaded);
    loaded', items' := loaded, items;
    found, n, outcome, trace := [], 0, Done, [StateOf(st, dir, names)];
    while n < |ops|
      invariant InOrder(st, dir, items', loaded') && Refines(items', names) && Tied(loaded', names)
      invariant st.Valid() && dir.ino in st.fs.files
      invariant n <= |ops| && |found| == n && |trace| == n + 1 && outcome == Done
      invariant trace[0] == old(StateOf(st, dir, NamesOf(items)))
      invariant trace[n] == StateOf(st, dir, names) && trace[n].names == names
      invariant forall i :: 0 <= i < n ==> Effect(dir.ino, ops[i], trace[i], trace[i + 1])
      invariant forall i :: 0 <= i < n ==> found[i] == Get(trace[i].names, KeyOf(ops[i].name, ops[i].t))
    {
      ghost var items1, names1;
      var f, loaded1;
      outcome, f, loaded1, items1, names1 := Step(st, dir, ops[n], items', names, loaded');
      if !outcome.Done? {
        return;
      }
      loaded', items', names := loaded1, items1, names1;
      found, trace := found + [f], trace + [StateOf(st, dir, names)];
      n := n + 1;
      Sane(st, dir, items', loaded');
    }
  }

  lemma Sane(st: DirStore, dir: Inode, items: seq<Item>, loaded: map<Key, Inode>)
    requires InOrder(st, dir, items, loaded)
    ensures st.Valid() && dir.ino in st.fs.files
  {
  }
}
