/**
 * What a directory means: up to the first slot whose first byte is zero its slots are a row of items (deleted slots,
 * plain 8.3 entries, long names with their 8.3 entry).  Looking a name up, listing, registering and deleting are
 * described on the items.
 */
module DirItems {
  import opened Common
  import opened DirName

  const DELETED: u8 := 0xe5

  datatype Item =
    | Free(s: Slot)
    | Short(s: Slot)
    | Long(parts: seq<Slot>, s: Slot)
  {
    function Slots(): (r: seq<Slot>)
      ensures |r| >= 1 && r[|r| - 1] == s
    {
      if Long? then parts + [s] else [s]
    }

    /** The bytes tell the reader what the item is. */
    predicate Ok() {
      match this
      case Free(s) => s[0] == DELETED
      case Short(s) => Used(s) && s[11] != LONGNAME
      case Long(parts, s) =>
        && Used(s)
        && 0 < |parts| && |parts| * 13 <= FILENAME_MX_LEN
        && parts[0][0] % 0x40 == |parts| && parts[0][11] == LONGNAME
        && forall i :: 0 <= i < |parts| ==> Used(parts[i])
    }

    /** The name that the parser reads, if the item has one. */
    function Text(): Name {
      match this
      case Free(_) => []
      case Short(s) => ShortText(s)
      case Long(parts, _) =>
        var len := NameLen(parts, 0);
        if len <= 13 * |parts| then NameBuf(parts)[..len] else []
    }

    /** The length of a long name does not depend on what was parsed before. */
    ghost predicate Terminated() {
      Long? ==> NameLen(parts, 0) <= 13 * |parts| && forall len: nat :: NameLen(parts, len) == NameLen(parts, 0)
    }

    /** `fat32_lookup_direntry` stops at this item when it looks for `name` of type `t`. */
    predicate Matches(name: Name, t: FileType) {
      !Free? && UpperAll(Text()) == UpperAll(name) && s[11] == TypeAttr(t)
    }
  }

  predicate Used(s: Slot) {
    s[0] != 0 && s[0] != DELETED
  }

  /** The slots of a row of items. */
  function Layout(items: seq<Item>): seq<Slot> {
    if items == [] then [] else Layout(items[..|items| - 1]) + items[|items| - 1].Slots()
  }

  function Offset(items: seq<Item>, k: nat): nat
    requires k <= |items|
  {
    |Layout(items[..k])|
  }

  ghost predicate AllOk(items: seq<Item>) {
    forall i :: 0 <= i < |items| ==> items[i].Ok()
  }

  ghost predicate AllTerminated(items: seq<Item>) {
    forall i :: 0 <= i < |items| ==> items[i].Terminated()
  }

  /** `slots` is a well-formed directory with these items: they fill it up to the first unused slot. */
  ghost predicate IsDir(slots: seq<Slot>, items: seq<Item>) {
    && AllOk(items)
    && |Layout(items)| <= |slots| && slots[..|Layout(items)|] == Layout(items)
    && (|Layout(items)| < |slots| ==> slots[|Layout(items)|][0] == 0)
  }

  lemma {:induction false} LayoutConcat(a: seq<Item>, b: seq<Item>)
    ensures Layout(a + b) == Layout(a) + Layout(b)
  {
    if b == [] {
      assert a + b == a;
    } else {
      var front, last := b[..|b| - 1], b[|b| - 1].Slots();
      LayoutConcat(a, front);
      hide Item.Slots;
      assert (a + b)[..|a + b| - 1] == a + front && (a + b)[|a + b| - 1] == b[|b| - 1];
      assert Layout(a + b) == Layout(a + front) + last;
      assert Layout(b) == Layout(front) + last;
    }
  }

  lemma LayoutSplit(items: seq<Item>, k: nat)
    requires k <= |items|
    ensures Layout(items) == Layout(items[..k]) + Layout(items[k..])
  {
    hide Layout;
    assert items == items[..k] + items[k..];
    LayoutConcat(items[..k], items[k..]);
  }

  lemma LayoutOne(it: Item)
    ensures Layout([it]) == it.Slots()
  {
    assert [it][..0] == [];
  }

  /** Item `k` lies at its offset. */
  lemma ItemAt(items: seq<Item>, k: nat)
    requires k < |items|
    ensures Offset(items, k + 1) == Offset(items, k) + |items[k].Slots()| <= |Layout(items)|
    ensures Layout(items)[Offset(items, k)..Offset(items, k + 1)] == items[k].Slots()
  {
    var a, b := items[..k], items[k + 1..];
    assert items == a + [items[k]] + b;
    assert items[..k + 1] == a + [items[k]];
    LayoutOne(items[k]);
    LayoutConcat(a, [items[k]]);
    LayoutConcat(a + [items[k]], b);
  }

  lemma OffsetEnd(items: seq<Item>)
    ensures Offset(items, |items|) == |Layout(items)|
  {
    assert items[..|items|] == items;
  }

  // ---- looking up --------------------------------------------------------------------------------------------

  datatype Found = Found(begin: nat, len: nat, slot: Slot)

  /** The first of the items `k`, `k + 1`, ... that matches. */
  function FindFrom(items: seq<Item>, k: nat, name: Name, t: FileType): (r: Option<nat>)
    requires k <= |items|
    ensures r.Some? ==> k <= r.value < |items| && items[r.value].Matches(name, t)
    ensures r.Some? ==> forall i :: k <= i < r.value ==> !items[i].Matches(name, t)
    ensures r.None? ==> forall i :: k <= i < |items| ==> !items[i].Matches(name, t)
    decreases |items| - k
  {
    hide Item.Matches;
    if k == |items| then None
    else if items[k].Matches(name, t) then Some(k)
    else FindFrom(items, k + 1, name, t)
  }

  /** The map from names to entries that the directory stands for. */
  function Lookup(items: seq<Item>, name: Name, t: FileType): Option<Found> {
    match FindFrom(items, 0, name, t)
    case None => None
    case Some(k) => Some(Found(Offset(items, k), |items[k].Slots()|, items[k].s))
  }

  /** The first match is determined by its position. */
  lemma LookupAt(items: seq<Item>, k: nat, name: Name, t: FileType)
    requires k < |items| && items[k].Matches(name, t)
    requires forall i :: 0 <= i < k ==> !items[i].Matches(name, t)
    ensures Lookup(items, name, t) == Some(Found(Offset(items, k), |items[k].Slots()|, items[k].s))
  {
  }

  lemma LookupNone(items: seq<Item>, name: Name, t: FileType)
    requires forall i :: 0 <= i < |items| ==> !items[i].Matches(name, t)
    ensures Lookup(items, name, t) == None
  {
  }

  /** At most one item answers to the name. */
  ghost predicate Once(items: seq<Item>, name: Name, t: FileType) {
    forall i, j :: 0 <= i < j < |items| && items[i].Matches(name, t) ==> !items[j].Matches(name, t)
  }

  /** No two items answer to the same name and type. */
  ghost predicate NoDuplicates(items: seq<Item>) {
    forall name, t :: Once(items, name, t)
  }

  /** Two names are the same to the lookup. */
  predicate SameKey(a: Name, ta: FileType, b: Name, tb: FileType) {
    UpperAll(a) == UpperAll(b) && ta == tb
  }

  lemma SameKeyIff(a: Name, ta: FileType, b: Name, tb: FileType)
    ensures SameKey(a, ta, b, tb) <==> SameName(a, b) && ta == tb
  {
    UpperAllIff(a, b);
  }

  /** Which names an entry answers to: its own up to case, of the type that its attribute byte says. */
  lemma MatchesIff(it: Item, name: Name, t: FileType)
    ensures it.Matches(name, t) <==>
            !it.Free? && SameName(it.Text(), name) && it.s[11] == if t == Dir then 0x10 else 0x20
  {
    UpperAllIff(it.Text(), name);
  }

  // ---- replacing a stretch of items by another one that takes the same slots ---------------------------------

  /** `mid` takes the place of the items `[a, b)`. */
  function Spliced(items: seq<Item>, a: nat, b: nat, mid: seq<Item>): seq<Item>
    requires a <= b <= |items|
  {
    items[..a] + mid + items[b..]
  }

  /** The slots after a splice: only those of the stretch change. */
  lemma SplicedLayout(items: seq<Item>, a: nat, b: nat, mid: seq<Item>)
    requires a <= b <= |items|
    ensures Offset(items, a) <= Offset(items, b) <= |Layout(items)|
    ensures Layout(Spliced(items, a, b, mid)) ==
            Layout(items)[..Offset(items, a)] + Layout(mid) + Layout(items)[Offset(items, b)..]
  {
    hide Layout;
    LayoutConcat(items[..a], mid);
    LayoutConcat(items[..a] + mid, items[b..]);
    LayoutSplit(items, a);
    LayoutSplit(items, b);
    LayoutSplit(items[..b], a);
    assert items[..b][..a] == items[..a];
    assert Layout(items)[..Offset(items, a)] == Layout(items[..a]);
    assert Layout(items)[Offset(items, b)..] == Layout(items[b..]);
  }

  /** Items outside the stretch keep their slots. */
  lemma SplicedOffset(items: seq<Item>, a: nat, b: nat, mid: seq<Item>, k: nat)
    requires a <= b <= |items|
    requires |Layout(mid)| == Offset(items, b) - Offset(items, a)
    requires k < a || b <= k < |items|
    ensures var k' := if k < a then k else k - (b - a) + |mid|;
            var items' := Spliced(items, a, b, mid);
            k' < |items'| && items'[k'] == items[k] && Offset(items', k') == Offset(items, k)
  {
    hide Layout;
    var items' := Spliced(items, a, b, mid);
    if k < a {
      assert items'[..k] == items[..k];
    } else {
      var k' := k - (b - a) + |mid|;
      assert items'[..k'] == items[..a] + mid + items[b..k];
      LayoutConcat(items[..a] + mid, items[b..k]);
      LayoutConcat(items[..a], mid);
      LayoutSplit(items[..k], b);
      assert items[..k][..b] == items[..b] && items[..k][b..] == items[b..k];
    }
  }

  // ---- deleting ----------------------------------------------------------------------------------------------

  /** What `fat32_delete_direntry` leaves of an item: each of its slots marked deleted. */
  function Deleted(it: Item): (r: seq<Item>)
    ensures |r| == |it.Slots()|
    ensures forall j :: 0 <= j < |r| ==> r[j].Free? && r[j].Ok()
  {
    seq(|it.Slots()|, j requires 0 <= j < |it.Slots()| => Free(it.Slots()[j][0 := DELETED]))
  }

  /** Items other than long names take one slot each. */
  lemma {:induction false} SinglesLayout(items: seq<Item>)
    requires forall j :: 0 <= j < |items| ==> !items[j].Long?
    ensures |Layout(items)| == |items|
    ensures forall j :: 0 <= j < |items| ==> Layout(items)[j] == items[j].s
  {
    if items != [] {
      SinglesLayout(items[..|items| - 1]);
    }
  }

  /** Where the items of a spliced row come from. */
  lemma SplicedIndex(items: seq<Item>, a: nat, b: nat, mid: seq<Item>)
    requires a <= b <= |items|
    ensures var r := Spliced(items, a, b, mid);
            && |r| == |items| - (b - a) + |mid|
            && (forall i :: 0 <= i < a ==> r[i] == items[i])
            && (forall i :: a <= i < a + |mid| ==> r[i] == mid[i - a])
            && (forall i :: a + |mid| <= i < |r| ==> r[i] == items[i - |mid| + (b - a)])
  {
  }

  /** A splice of items that do not match for items that do not match, slot for slot, changes no lookup. */
  lemma SpliceKeepsLookup(items: seq<Item>, a: nat, b: nat, mid: seq<Item>, name: Name, t: FileType)
    requires a <= b <= |items|
    requires |Layout(mid)| == Offset(items, b) - Offset(items, a)
    requires forall i :: 0 <= i < |mid| ==> !mid[i].Matches(name, t)
    requires forall i :: a <= i < b ==> !items[i].Matches(name, t)
    ensures Lookup(Spliced(items, a, b, mid), name, t) == Lookup(items, name, t)
  {
    var r := Spliced(items, a, b, mid);
    SplicedIndex(items, a, b, mid);
    hide Item.Matches, Layout, Spliced;
    match FindFrom(items, 0, name, t)
    case None =>
      LookupNone(r, name, t);
    case Some(k) =>
      SplicedOffset(items, a, b, mid, k);
      var k' := if k < a then k else k - (b - a) + |mid|;
      LookupAt(r, k', name, t);
  }

  /** With the only matching stretch replaced by items that do not match, nothing is found. */
  lemma SpliceLosesLookup(items: seq<Item>, a: nat, b: nat, mid: seq<Item>, name: Name, t: FileType)
    requires a <= b <= |items|
    requires forall i :: 0 <= i < |mid| ==> !mid[i].Matches(name, t)
    requires forall i :: 0 <= i < |items| && !(a <= i < b) ==> !items[i].Matches(name, t)
    ensures Lookup(Spliced(items, a, b, mid), name, t) == None
  {
    SplicedIndex(items, a, b, mid);
    hide Item.Matches, Spliced;
    LookupNone(Spliced(items, a, b, mid), name, t);
  }

  lemma FreeNeverMatches(items: seq<Item>, name: Name, t: FileType)
    requires forall i :: 0 <= i < |items| ==> items[i].Free?
    ensures forall i :: 0 <= i < |items| ==> !items[i].Matches(name, t)
  {
  }

  lemma OnlyMatch(items: seq<Item>, k: nat, name: Name, t: FileType)
    requires k < |items| && NoDuplicates(items) && items[k].Matches(name, t)
    ensures forall i :: 0 <= i < |items| && i != k ==> !items[i].Matches(name, t)
  {
    hide Item.Matches;
    assert Once(items, name, t);
  }

  /**
   * Deleting an item removes exactly the names it answered to; every other lookup gives the same entry at the
   * same slots.
   */
  lemma DeleteLookup(items: seq<Item>, k: nat, name: Name, t: FileType)
    requires k < |items| && NoDuplicates(items)
    ensures Lookup(Spliced(items, k, k + 1, Deleted(items[k])), name, t) ==
            if items[k].Matches(name, t) then None else Lookup(items, name, t)
  {
    DeletedSize(items, k);
    FreeReplacesOne(items, k, Deleted(items[k]), name, t);
  }

  lemma DeletedSize(items: seq<Item>, k: nat)
    requires k < |items|
    ensures |Layout(Deleted(items[k]))| == Offset(items, k + 1) - Offset(items, k)
  {
    SinglesLayout(Deleted(items[k]));
    ItemAt(items, k);
  }

  lemma FreeReplacesOne(items: seq<Item>, k: nat, mid: seq<Item>, name: Name, t: FileType)
    requires k < |items| && NoDuplicates(items)
    requires |Layout(mid)| == Offset(items, k + 1) - Offset(items, k)
    requires forall j :: 0 <= j < |mid| ==> mid[j].Free?
    ensures Lookup(Spliced(items, k, k + 1, mid), name, t) ==
            if items[k].Matches(name, t) then None else Lookup(items, name, t)
  {
    hide Layout, Spliced, NoDuplicates, Item.Matches, Lookup, Offset;
    FreeNeverMatches(mid, name, t);
    if items[k].Matches(name, t) {
      OnlyMatch(items, k, name, t);
      SpliceLosesLookup(items, k, k + 1, mid, name, t);
    } else {
      SpliceKeepsLookup(items, k, k + 1, mid, name, t);
    }
  }

  // ---- registering -------------------------------------------------------------------------------------------

  /** The item that the slots of a new file form. */
  function FileItem(name: Name, t: FileType, ino: u32, cMs: u8): (it: Item)
    requires |name| <= LONGEST_NAME
    ensures !it.Free? && it.Slots() == FileSlots(name, t, ino, cMs)
  {
    var slots := FileSlots(name, t, ino, cMs);
    if |slots| == 1 then Short(slots[0]) else Long(slots[..|slots| - 1], slots[|slots| - 1])
  }

  /** Names whose bytes do not read as end-of-directory or deleted marks. */
  predicate Writable(name: Name) {
    && |name| <= LONGEST_NAME
    && (forall i :: 0 <= i < |name| ==> name[i] != 0)
    && (name != [] ==> name[0] != DELETED)
  }

  /** The long slots of a name fit the parser's buffer of 255 bytes up to a length of 246. */
  lemma LongestName(name: Name)
    ensures (SlotCount(name) - 1) * 13 <= 255 <==> |name| <= LONGEST_NAME
  {
  }

  /** Of the names that fit, and have no zero bytes, those are writable all of whose slots begin with a usable byte. */
  lemma WritableIff(name: Name, t: FileType, ino: u32, cMs: u8)
    requires |name| <= LONGEST_NAME && NonZero(name)
    ensures Writable(name) <==>
            forall i :: 0 <= i < SlotCount(name) ==> FileSlots(name, t, ino, cMs)[i][0] !in {0, 0xe5}
  {
    SlotShape(name, t, ino, cMs);
    FieldBegins(name);
    hide ShortSlot, LongSlot, NameField, SlotCount;
    var n, s := SlotCount(name), ShortSlot(name, t, ino, cMs);
    assert FileSlots(name, t, ino, cMs)[n - 1] == s;
    assert s[0] == s[..11][0] == NameField(name)[0];
  }

  lemma FieldBegins(name: Name)
    requires NonZero(name)
    ensures NameField(name)[0] != 0 && (NameField(name)[0] == 0xe5 <==> name != [] && name[0] == 0xe5)
  {
    assert name != [] && name[0] != DOT ==> FileLen(name) > 0;
    hide FileLen;
  }

  /** Names that survive the trip through the directory slots. */
  predicate Faithful(name: Name) {
    if |name| <= 11 then Proper83(name) else HasDot(name)
  }

  /** The text of an 8.3 field written by the kernel is upper case already. */
  lemma ShortTextIsUpper(name: Name, t: FileType, ino: u32, cMs: u8)
    requires |name| <= 11
    ensures UpperAll(ShortText(ShortSlot(name, t, ino, cMs))) == ShortText(ShortSlot(name, t, ino, cMs))
  {
    var s := ShortSlot(name, t, ino, cMs);
    hide ShortSlot;
    FieldIsUpper(name);
    assert s[..8] == s[..11][..8] && s[8..11] == s[..11][8..];
    PrefixIsUpper(NameField(name)[..8], UntilSpace(s[..8]));
    PrefixIsUpper(NameField(name)[8..], UntilSpace(s[8..11]));
    hide UntilSpace, NameField;
    var text := ShortText(s);
    assert forall i :: 0 <= i < |text| ==> Upper(text[i]) == text[i];
  }

  lemma FieldIsUpper(name: Name)
    requires |name| <= 11
    ensures forall i :: 0 <= i < 11 ==> Upper(NameField(name)[i]) == NameField(name)[i]
  {
  }

  lemma PrefixIsUpper(field: seq<u8>, f: seq<u8>)
    requires f <= field && forall i :: 0 <= i < |field| ==> Upper(field[i]) == field[i]
    ensures forall i :: 0 <= i < |f| ==> Upper(f[i]) == f[i]
  {
  }

  /** A registered name is well formed in the directory, and answers to itself exactly when it is faithful. */
  lemma FileItemMatchesIff(name: Name, t: FileType, ino: u32, cMs: u8)
    requires Writable(name)
    ensures var it := FileItem(name, t, ino, cMs);
            && it.Ok()
            && (it.Terminated() <==> |name| <= 11 || HasDot(name))
            && (it.Matches(name, t) <==> Faithful(name))
  {
    SlotShape(name, t, ino, cMs);
    FirstByteUsed(name, t, ino, cMs);
    if |name| <= 11 {
      ShortItemMatchesIff(name, t, ino, cMs);
    } else {
      LongItemMatchesIff(name, t, ino, cMs);
      hide Item.Text, Item.Terminated, Item.Matches, ShortSlot, LongSlot, Proper83, HasDot, NameLen;
    }
  }

  lemma ShortItemMatchesIff(name: Name, t: FileType, ino: u32, cMs: u8)
    requires Writable(name) && |name| <= 11
    ensures var it := FileItem(name, t, ino, cMs);
            && it == Short(ShortSlot(name, t, ino, cMs)) && it.Ok()
            && (it.Matches(name, t) <==> Proper83(name))
            && (Proper83(name) ==> it.Text() == UpperAll(name))
  {
    FirstByteUsed(name, t, ino, cMs);
    ShortTextIff(name, t, ino, cMs);
    ShortTextIsUpper(name, t, ino, cMs);
    hide ShortSlot, ShortText, Proper83;
    assert FileSlots(name, t, ino, cMs) == [ShortSlot(name, t, ino, cMs)];
  }

  /** What a faithful name's entry answers to: the name in any case, with its own type. */
  lemma FaithfulAnswers(name: Name, t: FileType, ino: u32, cMs: u8, q: Name, tq: FileType)
    requires Writable(name) && Faithful(name)
    ensures FileItem(name, t, ino, cMs).Matches(q, tq) <==> SameName(q, name) && tq == t
  {
    FileItemMatchesIff(name, t, ino, cMs);
    UpperAllIff(q, name);
    hide Item.Text, Faithful, Writable, FileItem;
  }

  lemma FirstByteUsed(name: Name, t: FileType, ino: u32, cMs: u8)
    requires Writable(name)
    ensures Used(ShortSlot(name, t, ino, cMs))
  {
    hide ShortSlot;
    var s := ShortSlot(name, t, ino, cMs);
    assert s[0] == s[..11][0];
  }

  lemma LongItemMatchesIff(name: Name, t: FileType, ino: u32, cMs: u8)
    requires Writable(name) && |name| > 11
    ensures var it := FileItem(name, t, ino, cMs);
            && it.Long? && it.s == ShortSlot(name, t, ino, cMs)
            && (it.Terminated() <==> HasDot(name))
            && (it.Matches(name, t) <==> HasDot(name))
            && (HasDot(name) ==> it.Text() == name)
  {
    var it := FileItem(name, t, ino, cMs);
    var total := SlotCount(name);
    var slots := FileSlots(name, t, ino, cMs);
    assert it.parts == slots[..total - 1] == LongPart(name, total, total - 1);
    assert it.s == ShortSlot(name, t, ino, cMs);
    forall len: nat
      ensures NameLen(it.parts, len) == if HasDot(name) then |name| else len
    {
      NameLenOfLongPart(name, total, len);
    }
    LongNameRoundTripIff(name, t, ino, cMs, 0);
    hide NameLen, NameBuf, FileSlots, ShortSlot, LongPart, HasDot;
    if HasDot(name) {
      assert it.Text() == name;
    } else {
      assert NameLen(it.parts, 1) != NameLen(it.parts, 0);
      assert |it.Text()| == 0;
      assert |UpperAll(name)| != 0;
    }
  }

  /**
   * Putting a new item on a run of free ones of the same size, or behind the last item: the new item is found at
   * its place under its names, and every other lookup gives the same entry at the same slots.
   */
  lemma RegisterLookup(items: seq<Item>, a: nat, b: nat, it: Item, name: Name, t: FileType)
    requires a <= b <= |items| && forall i :: a <= i < b ==> items[i].Free?
    requires a == b == |items| || |it.Slots()| == Offset(items, b) - Offset(items, a)
    requires it.Matches(name, t) ==> Lookup(items, name, t) == None
    ensures Lookup(Spliced(items, a, b, [it]), name, t) ==
            if it.Matches(name, t) then Some(Found(Offset(items, a), |it.Slots()|, it.s)) else Lookup(items, name, t)
  {
    hide Layout, Spliced, Item.Slots;
    assert |Layout([it])| == |it.Slots()| by {
      LayoutOne(it);
    }
    if it.Matches(name, t) {
      NewItemFound(items, a, b, it, name, t);
    } else if a < |items| {
      SpliceKeepsLookup(items, a, b, [it], name, t);
    } else {
      AppendKeepsLookup(items, it, name, t);
      assert Spliced(items, a, b, [it]) == items + [it] by {
        SplicedIndex(items, a, b, [it]);
      }
    }
  }

  lemma NewItemFound(items: seq<Item>, a: nat, b: nat, it: Item, name: Name, t: FileType)
    requires a <= b <= |items| && it.Matches(name, t) && Lookup(items, name, t) == None
    ensures Lookup(Spliced(items, a, b, [it]), name, t) == Some(Found(Offset(items, a), |it.Slots()|, it.s))
  {
    var r := Spliced(items, a, b, [it]);
    SplicedIndex(items, a, b, [it]);
    assert r[..a] == items[..a];
    hide Item.Matches, Layout, Spliced, Item.Slots;
    assert FindFrom(items, 0, name, t) == None;
    LookupAt(r, a, name, t);
  }

  lemma AppendKeepsLookup(items: seq<Item>, it: Item, name: Name, t: FileType)
    requires !it.Matches(name, t)
    ensures Lookup(items + [it], name, t) == Lookup(items, name, t)
  {
    var r := items + [it];
    hide Item.Matches, Layout, Item.Slots;
    match FindFrom(items, 0, name, t)
    case None =>
      LookupNone(r, name, t);
    case Some(k) =>
      assert r[..k] == items[..k];
      LookupAt(r, k, name, t);
  }

  // ---- room for new slots ------------------------------------------------------------------------------------

  /** `need` deleted slots in a row from slot `b`. */
  ghost predicate RunAt(slots: seq<Slot>, b: nat, need: nat) {
    && b + need <= |slots|
    && forall j :: b <= j < b + need ==> slots[j][0] == DELETED
  }

  /** Where the search of `fat32_apply_direntry` stops: the first long enough run, or the first unused slot. */
  ghost predicate IsRoom(slots: seq<Slot>, need: nat, begin: nat) {
    && begin < |slots|
    && (forall j :: 0 <= j < begin ==> slots[j][0] != 0)
    && (forall b :: 0 <= b < begin ==> !RunAt(slots, b, need))
    && (slots[begin][0] == 0 || RunAt(slots, begin, need))
  }

  /** The search runs off the end. */
  ghost predicate NoRoom(slots: seq<Slot>, need: nat) {
    && (forall j :: 0 <= j < |slots| ==> slots[j][0] != 0)
    && (forall b :: 0 <= b < |slots| ==> !RunAt(slots, b, need))
  }

  /** A slot where `need` slots can be put: an unused one, or the first of `need` deleted ones. */
  ghost predicate HasRoom(slots: seq<Slot>, need: nat, b: nat)
    requires b < |slots|
  {
    slots[b][0] == 0 || (b + need <= |slots| && forall j :: b <= j < b + need ==> slots[j][0] == 0xe5)
  }

  /** The search stops at the first of these slots, and runs off the end only if there is none. */
  lemma FirstRoom(slots: seq<Slot>, need: nat, b: nat)
    requires need > 0
    ensures IsRoom(slots, need, b) <==>
            b < |slots| && HasRoom(slots, need, b) && forall c :: 0 <= c < b ==> !HasRoom(slots, need, c)
    ensures NoRoom(slots, need) <==> forall c :: 0 <= c < |slots| ==> !HasRoom(slots, need, c)
  {
    assert forall c :: 0 <= c < |slots| ==> (HasRoom(slots, need, c) <==> slots[c][0] == 0 || RunAt(slots, c, need));
  }

  lemma {:induction false} OffsetMonotone(items: seq<Item>, i: nat, j: nat)
    requires i <= j <= |items|
    ensures Offset(items, i) + (j - i) <= Offset(items, j)
  {
    hide Layout, Offset, Item.Slots;
    if i < j {
      OffsetMonotone(items, i, j - 1);
      ItemAt(items, j - 1);
    }
  }

  /** No item begins with a zero byte, and a deleted slot is a free item of its own. */
  lemma {:induction false} LayoutBytes(items: seq<Item>, p: nat) returns (k: nat)
    requires AllOk(items) && p < |Layout(items)|
    ensures Layout(items)[p][0] != 0
    ensures Layout(items)[p][0] == DELETED ==> k < |items| && Offset(items, k) == p && items[k].Free?
  {
    var n := |items| - 1;
    var front := items[..n];
    if p < |Layout(front)| {
      k := LayoutBytes(front, p);
      if Layout(items)[p][0] == DELETED {
        assert front[..k] == items[..k];
      }
    } else {
      k := n;
    }
  }

  /** A run of deleted slots is a row of free items. */
  lemma {:induction false} RunIsFreeItems(items: seq<Item>, p: nat, need: nat) returns (a: nat)
    requires AllOk(items) && need > 0 && RunAt(Layout(items), p, need)
    ensures a + need <= |items| && Offset(items, a) == p && Offset(items, a + need) == p + need
    ensures forall j :: a <= j < a + need ==> items[j].Free?
  {
    hide Layout, AllOk, Offset;
    var k := LayoutBytes(items, p + need - 1);
    FreeStep(items, k);
    if need == 1 {
      a := k;
    } else {
      a := RunIsFreeItems(items, p, need - 1);
      OffsetInjective(items, k, a + need - 1);
    }
  }

  lemma FreeStep(items: seq<Item>, k: nat)
    requires k < |items| && items[k].Free?
    ensures Offset(items, k + 1) == Offset(items, k) + 1
  {
    ItemAt(items, k);
  }

  lemma OffsetInjective(items: seq<Item>, i: nat, j: nat)
    requires i <= |items| && j <= |items| && Offset(items, i) == Offset(items, j)
    ensures i == j
  {
    if i < j {
      OffsetMonotone(items, i, j);
    } else {
      OffsetMonotone(items, j, i);
    }
  }

  // ---- directories before and after --------------------------------------------------------------------------

  /** `new` written over `slots` from slot `begin` on. */
  function Overwritten(slots: seq<Slot>, begin: nat, written: seq<Slot>): (r: seq<Slot>)
    requires begin + |written| <= |slots|
    ensures |r| == |slots|
  {
    slots[..begin] + written + slots[begin + |written|..]
  }

  lemma OverwrittenIndex(slots: seq<Slot>, p: nat, m: seq<Slot>)
    requires p + |m| <= |slots|
    ensures var r := Overwritten(slots, p, m);
            && (forall j :: 0 <= j < p ==> r[j] == slots[j])
            && (forall j :: p <= j < p + |m| ==> r[j] == m[j - p])
            && (forall j :: p + |m| <= j < |r| ==> r[j] == slots[j])
  {
  }

  lemma OverwrittenPrefix(slots: seq<Slot>, n: nat, p: nat, m: seq<Slot>)
    requires p + |m| <= n <= |slots|
    ensures Overwritten(slots, p, m)[..n] == slots[..n][..p] + m + slots[..n][p + |m|..]
  {
    OverwrittenIndex(slots, p, m);
    var l, r := Overwritten(slots, p, m)[..n], slots[..n][..p] + m + slots[..n][p + |m|..];
    hide Overwritten;
    forall j | 0 <= j < n
      ensures l[j] == r[j]
    {
    }
  }

  lemma AllOkSpliced(items: seq<Item>, a: nat, b: nat, mid: seq<Item>)
    requires a <= b <= |items| && AllOk(items) && AllOk(mid)
    ensures AllOk(Spliced(items, a, b, mid))
    ensures AllTerminated(items) && AllTerminated(mid) ==> AllTerminated(Spliced(items, a, b, mid))
  {
    SplicedIndex(items, a, b, mid);
    hide Item.Ok, Item.Terminated, Spliced;
  }

  /** A splice that takes the same slots rewrites just those slots of the directory. */
  lemma SplicedDir(slots: seq<Slot>, items: seq<Item>, a: nat, b: nat, mid: seq<Item>)
    requires IsDir(slots, items) && a <= b <= |items| && AllOk(mid)
    requires |Layout(mid)| == Offset(items, b) - Offset(items, a)
    ensures Offset(items, a) + |Layout(mid)| <= |slots|
    ensures IsDir(Overwritten(slots, Offset(items, a), Layout(mid)), Spliced(items, a, b, mid))
    ensures |Layout(Spliced(items, a, b, mid))| == |Layout(items)|
  {
    hide Layout, Spliced, AllOk, Overwritten, Offset;
    AllOkSpliced(items, a, b, mid);
    SplicedLayout(items, a, b, mid);
    var n, p := |Layout(items)|, Offset(items, a);
    OverwrittenPrefix(slots, n, p, Layout(mid));
    OverwrittenIndex(slots, p, Layout(mid));
  }

  lemma OneOk(it: Item)
    requires it.Ok()
    ensures AllOk([it])
  {
  }

  /** A new file on a run of deleted slots. */
  lemma RegisterInRun(slots: seq<Slot>, items: seq<Item>, begin: nat, it: Item) returns (a: nat)
    requires IsDir(slots, items) && it.Ok()
    requires RunAt(slots, begin, |it.Slots()|) && forall j :: 0 <= j < begin ==> slots[j][0] != 0
    ensures var need := |it.Slots()|;
            && a + need <= |items| && Offset(items, a) == begin && Offset(items, a + need) == begin + need
            && (forall j :: a <= j < a + need ==> items[j].Free?)
            && IsDir(Overwritten(slots, begin, it.Slots()), Spliced(items, a, a + need, [it]))
  {
    var need, n := |it.Slots()|, |Layout(items)|;
    hide Layout, Item.Slots, AllOk, Spliced, Overwritten, Offset;
    assert begin + need <= n;
    assert RunAt(slots[..n], begin, need);
    a := RunIsFreeItems(items, begin, need);
    LayoutOne(it);
    assert AllOk([it]) by {
      OneOk(it);
    }
    SplicedDir(slots, items, a, a + need, [it]);
  }

  /** The first unused slot is the one behind the last item. */
  lemma FirstZeroIsEnd(slots: seq<Slot>, items: seq<Item>, begin: nat)
    requires IsDir(slots, items) && begin < |slots| && slots[begin][0] == 0
    requires forall j :: 0 <= j < begin ==> slots[j][0] != 0
    ensures begin == |Layout(items)|
  {
    var n := |Layout(items)|;
    assert n < |slots| ==> slots[n][0] == 0;
    if begin < n {
      assert slots[begin] == slots[..n][begin];
      var k := LayoutBytes(items, begin);
    }
  }

  lemma ItemInSlots(slots: seq<Slot>, items: seq<Item>, k: nat)
    requires IsDir(slots, items) && k < |items|
    ensures Offset(items, k) + |items[k].Slots()| <= |Layout(items)| <= |slots|
    ensures forall j :: 0 <= j < |items[k].Slots()| ==> slots[Offset(items, k) + j] == items[k].Slots()[j]
  {
    hide Layout, Item.Slots, Offset, AllOk;
    ItemAt(items, k);
    SliceOfPrefix(slots, Layout(items), Offset(items, k), items[k].Slots());
  }

  lemma SliceOfPrefix(slots: seq<Slot>, l: seq<Slot>, p: nat, own: seq<Slot>)
    requires |l| <= |slots| && slots[..|l|] == l && p + |own| <= |l| && l[p..p + |own|] == own
    ensures forall j :: 0 <= j < |own| ==> slots[p + j] == own[j]
  {
    forall j | 0 <= j < |own|
      ensures slots[p + j] == own[j]
    {
      assert l[p..p + |own|][j] == l[p + j] && slots[..|l|][p + j] == slots[p + j];
    }
  }

  /** Marking the slots of item `k` deleted. */
  lemma DeletedDir(slots: seq<Slot>, items: seq<Item>, k: nat)
    requires IsDir(slots, items) && k < |items|
    ensures Offset(items, k) + |items[k].Slots()| <= |slots|
    ensures IsDir(Marked(slots, Offset(items, k), |items[k].Slots()|), Spliced(items, k, k + 1, Deleted(items[k])))
    ensures AllTerminated(items) ==> AllTerminated(Spliced(items, k, k + 1, Deleted(items[k])))
  {
    hide Layout, Item.Slots, Item.Ok, Spliced, Offset, Overwritten;
    var mid := Deleted(items[k]);
    var p, n := Offset(items, k), |items[k].Slots()|;
    SinglesLayout(mid);
    ItemAt(items, k);
    SplicedDir(slots, items, k, k + 1, mid);
    AllOkSpliced(items, k, k + 1, mid);
    ItemInSlots(slots, items, k);
    MarkedIsOverwritten(slots, items, p, items[k].Slots(), Layout(mid));
  }

  lemma MarkedIsOverwritten(slots: seq<Slot>, items: seq<Item>, p: nat, was: seq<Slot>, m: seq<Slot>)
    requires p + |was| <= |slots| && |m| == |was|
    requires forall j :: 0 <= j < |was| ==> slots[p + j] == was[j] && m[j] == was[j][0 := DELETED]
    ensures Overwritten(slots, p, m) == Marked(slots, p, |was|)
  {
    OverwrittenIndex(slots, p, m);
    var l, r := Overwritten(slots, p, m), Marked(slots, p, |was|);
    hide Overwritten;
    forall j | 0 <= j < |slots|
      ensures l[j] == r[j]
    {
      if p <= j < p + |was| {
        assert slots[p + (j - p)] == was[j - p];
      }
    }
  }

  /** `slots` with the first bytes of `n` slots from `p` on set to 0xe5. */
  function Marked(slots: seq<Slot>, p: nat, n: nat): (r: seq<Slot>)
    requires p + n <= |slots|
    ensures |r| == |slots|
  {
    seq(|slots|, j requires 0 <= j < |slots| => if p <= j < p + n then slots[j][0 := DELETED] else slots[j])
  }

  // ---- a new directory ---------------------------------------------------------------------------------------

  /** The `.` (`dots` = 1) and `..` (`dots` = 2) slots of a new directory. */
  function DotSlot(dots: nat, ino: u32): (s: Slot)
    requires 1 <= dots <= 2
  {
    seq(dots, _ => DOT) + seq(11 - dots, _ => SPACE) +
    [SUBDIR, 0x18, 0, 0xc8, 0x95, 0x95, 0x4d, 0x95, 0x4d, ino / 0x1_0000 % 0x100, 0,
     0xc8, 0x95, 0x95, 0x4d, ino % 0x100, 0, 0, 0, 0, 0]
  }

  /** A dot slot leads to its cluster exactly when neither half of the number needs its high byte. */
  lemma DotClusterIff(dots: nat, ino: u32)
    requires 1 <= dots <= 2
    ensures var s := DotSlot(dots, ino);
            && FirstCluster(s) == LookupCluster(s) == ino % 0x100 + ino / 0x1_0000 % 0x100 * 0x1_0000
            && (FirstCluster(s) == ino <==> ino % 0x1_0000 < 0x100 && ino / 0x1_0000 < 0x100)
  {
    var s := DotSlot(dots, ino);
    assert s[20] == ino / 0x1_0000 % 0x100 && s[21] == 0 && s[26] == ino % 0x100 && s[27] == 0;
    hide DotSlot;
  }

  lemma DotItemIs(dots: nat, ino: u32)
    requires 1 <= dots <= 2
    ensures var it := Short(DotSlot(dots, ino));
            it.Ok() && it.Terminated() && it.Text() == seq(dots, _ => DOT) && it.s[11] == SUBDIR
  {
    var s := DotSlot(dots, ino);
    UntilSpaceAt(s[..8], dots);
    UntilSpaceAt(s[8..11], 0);
    assert s[..8][..dots] == seq(dots, _ => DOT);
  }

  /** The two dot entries make a well-formed directory in which exactly `.` and `..` are found. */
  lemma NewDirectory(slots: seq<Slot>, ino: u32, parent: u32, name: Name, t: FileType)
    requires |slots| > 2 && slots[0] == DotSlot(1, ino) && slots[1] == DotSlot(2, parent) && slots[2][0] == 0
    ensures var items := [Short(DotSlot(1, ino)), Short(DotSlot(2, parent))];
            && IsDir(slots, items) && AllTerminated(items) && Once(items, name, t)
            && Lookup(items, name, t) ==
               if t == Dir && name == [DOT] then Some(Found(0, 1, DotSlot(1, ino)))
               else if t == Dir && name == [DOT, DOT] then Some(Found(1, 1, DotSlot(2, parent)))
               else None
  {
    var a, b := Short(DotSlot(1, ino)), Short(DotSlot(2, parent));
    DotItemIs(1, ino);
    DotItemIs(2, parent);
    hide DotSlot, Item.Text, Item.Ok, Item.Terminated;
    TwoItems(slots, a, b);
    assert a.Text() == [DOT] && b.Text() == [DOT, DOT];
    OnlyDots(name, 1, a.Text());
    OnlyDots(name, 2, b.Text());
    var items := [a, b];
    hide Layout, IsDir, UpperAll;
    if t == Dir && name == [DOT] {
      LookupAt(items, 0, name, t);
    } else if t == Dir && name == [DOT, DOT] {
      LookupAt(items, 1, name, t);
    } else {
      LookupNone(items, name, t);
    }
  }

  lemma TwoItems(slots: seq<Slot>, a: Item, b: Item)
    requires a.Short? && b.Short? && a.Ok() && b.Ok()
    requires |slots| > 2 && slots[0] == a.s && slots[1] == b.s && slots[2][0] == 0
    ensures IsDir(slots, [a, b]) && Offset([a, b], 0) == 0 && Offset([a, b], 1) == 1
  {
    hide Item.Ok, Layout;
    LayoutNone();
    LayoutOne(a);
    LayoutOne(b);
    LayoutConcat([a], [b]);
    assert [a, b] == [a] + [b];
    assert Layout([a, b]) == [a.s, b.s] == slots[..2];
    assert [a, b][..1] == [a] && [a, b][..0] == [];
  }

  lemma LayoutNone()
    ensures Layout([]) == []
  {
  }

  /** No other name is equal to dots up to case. */
  lemma OnlyDots(name: Name, dots: nat, text: Name)
    requires text == seq(dots, _ => DOT)
    ensures UpperAll(text) == UpperAll(name) <==> name == text
  {
    if UpperAll(text) == UpperAll(name) {
      assert |name| == dots;
      forall i | 0 <= i < |name|
        ensures name[i] == DOT
      {
        assert UpperAll(text)[i] == UpperAll(name)[i];
      }
    }
  }

  /** A found entry lies inside the directory. */
  lemma LookupInside(slots: seq<Slot>, items: seq<Item>, name: Name, t: FileType) returns (k: nat)
    requires IsDir(slots, items) && Lookup(items, name, t).Some?
    ensures k < |items| && items[k].Matches(name, t)
    ensures var f := Lookup(items, name, t).value;
            f == Found(Offset(items, k), |items[k].Slots()|, items[k].s) && f.begin + f.len <= |slots|
  {
    k := FindFrom(items, 0, name, t).value;
    ItemInSlots(slots, items, k);
  }

  lemma DeletedNoDuplicates(items: seq<Item>, k: nat)
    requires k < |items| && NoDuplicates(items)
    ensures NoDuplicates(Spliced(items, k, k + 1, Deleted(items[k])))
  {
    var mid := Deleted(items[k]);
    forall m, q, tq | 0 <= m < |mid|
      ensures !mid[m].Matches(q, tq)
    {
      FreeNeverMatches(mid, q, tq);
    }
    hide Item.Matches, Deleted, NoDuplicates;
    StillNoDuplicates(items, k, k + 1, mid);
  }

  lemma RegisteredNoDuplicates(items: seq<Item>, a: nat, b: nat, it: Item, name: Name, t: FileType)
    requires a <= b <= |items| && it.Matches(name, t) && Lookup(items, name, t) == None
    ensures NoDuplicates(items) ==> NoDuplicates(Spliced(items, a, b, [it]))
  {
    if NoDuplicates(items) {
      forall k, q, tq | 0 <= k < |items| && it.Matches(q, tq)
        ensures !items[k].Matches(q, tq)
      {
        assert FindFrom(items, 0, name, t) == None;
        assert !items[k].Matches(name, t);
      }
      hide Item.Matches, NoDuplicates;
      StillNoDuplicates(items, a, b, [it]);
    }
  }

  /** The items and the map after a deletion, together. */
  lemma DeleteMeans(slots: seq<Slot>, items: seq<Item>, name: Name, t: FileType) returns (items': seq<Item>)
    requires IsDir(slots, items) && AllTerminated(items) && NoDuplicates(items) && Lookup(items, name, t).Some?
    ensures var f := Lookup(items, name, t).value;
            && f.begin + f.len <= |slots| && IsDir(Marked(slots, f.begin, f.len), items')
            && AllTerminated(items') && NoDuplicates(items')
    ensures forall q, tq :: Lookup(items', q, tq) == if SameKey(q, tq, name, t) then None else Lookup(items, q, tq)
  {
    var k := LookupInside(slots, items, name, t);
    items' := Spliced(items, k, k + 1, Deleted(items[k]));
    DeletedDir(slots, items, k);
    DeletedNoDuplicates(items, k);
    forall q, tq
      ensures Lookup(items', q, tq) == if SameKey(q, tq, name, t) then None else Lookup(items, q, tq)
    {
      DeleteLookup(items, k, q, tq);
    }
  }

  lemma TerminatedSpliced(items: seq<Item>, a: nat, b: nat, it: Item)
    requires a <= b <= |items|
    ensures AllTerminated(items) && it.Terminated() ==> AllTerminated(Spliced(items, a, b, [it]))
  {
    SplicedIndex(items, a, b, [it]);
    hide Item.Terminated, Spliced;
  }

  /** At most one of the items that take the place of `[a, b)` matches anything, and nothing that is there. */
  lemma StillNoDuplicates(items: seq<Item>, a: nat, b: nat, mid: seq<Item>)
    requires a <= b <= |items| && NoDuplicates(items)
    requires |mid| == 1 || forall m :: 0 <= m < |mid| ==> mid[m].Free?
    requires forall m, k, q, tq :: 0 <= m < |mid| && 0 <= k < |items| && !(a <= k < b) && mid[m].Matches(q, tq) ==>
      !items[k].Matches(q, tq)
    ensures NoDuplicates(Spliced(items, a, b, mid))
  {
    var r := Spliced(items, a, b, mid);
    SplicedIndex(items, a, b, mid);
    forall m, q, tq | 0 <= m < |mid| && mid[m].Free?
      ensures !mid[m].Matches(q, tq)
    {
    }
    hide Item.Matches, Spliced, Once;
    forall q, tq
      ensures Once(r, q, tq)
    {
      assert Once(items, q, tq);
      StillOnce(items, a, b, mid, r, q, tq);
    }
  }

  lemma StillOnce(items: seq<Item>, a: nat, b: nat, mid: seq<Item>, r: seq<Item>, q: Name, tq: FileType)
    requires a <= b <= |items| && Once(items, q, tq)
    requires |mid| == 1 || forall m :: 0 <= m < |mid| ==> !mid[m].Matches(q, tq)
    requires forall m, k :: 0 <= m < |mid| && 0 <= k < |items| && !(a <= k < b) && mid[m].Matches(q, tq) ==>
      !items[k].Matches(q, tq)
    requires |r| == |items| - (b - a) + |mid| && (forall i :: 0 <= i < a ==> r[i] == items[i])
    requires forall i :: a <= i < a + |mid| ==> r[i] == mid[i - a]
    requires forall i :: a + |mid| <= i < |r| ==> r[i] == items[i - |mid| + (b - a)]
    ensures Once(r, q, tq)
  {
    hide Item.Matches;
    forall i, j | 0 <= i < j < |r| && r[i].Matches(q, tq)
      ensures !r[j].Matches(q, tq)
    {
      var d := b - a - |mid|;
      if i < a && j >= a + |mid| {
        assert r[j] == items[j + d];
      } else if i >= a + |mid| {
        assert r[i] == items[i + d] && r[j] == items[j + d];
      } else if a <= i < a + |mid| && j >= a + |mid| {
        assert r[i] == mid[i - a] && r[j] == items[j + d];
      } else if i < a <= j < a + |mid| {
        assert r[j] == mid[j - a];
      }
    }
  }

  /** Lookups see a name only up to case. */
  lemma SameKeySameLookup(items: seq<Item>, name: Name, t: FileType, q: Name, tq: FileType)
    ensures SameKey(q, tq, name, t) ==> Lookup(items, q, tq) == Lookup(items, name, t)
  {
    if SameKey(q, tq, name, t) {
      match FindFrom(items, 0, name, t)
      case None =>
        LookupNone(items, q, tq);
      case Some(k) =>
        LookupAt(items, k, q, tq);
    }
  }

  // ---- listing -----------------------------------------------------------------------------------------------

  datatype Dirent = Dirent(ino: nat, t: FileType, name: Name)

  /** `fat32_readdir` shows every entry but deleted ones and plain volume labels. */
  predicate Listed(it: Item) {
    match it
    case Free(_) => false
    case Short(s) => s[11] != VOLNAME
    case Long(_, _) => true
  }

  function EntryOf(it: Item): Dirent {
    Dirent(FirstCluster(it.s), if it.s[11] / 0x10 % 2 == 1 then Dir else Norm, it.Text())
  }

  /**
   * What is listed, all but deleted slots and single ones with the label attribute alone, and as what: as a directory
   * exactly if bit 4 of the attributes is set.
   */
  lemma EntryOfMeans(it: Item)
    ensures Listed(it) <==> !it.Free? && (it.Short? ==> it.s[11] != 0x08)
    ensures (EntryOf(it).t == Dir <==> 0x10 <= it.s[11] % 0x20) && EntryOf(it).name == it.Text()
    ensures EntryOf(it).ino == it.s[26] as int + it.s[27] as int * 0x100 + it.s[20] as int * 0x1_0000 +
                               it.s[21] as int * 0x100_0000
  {
    FourBytes(it.s);
  }

  /** What a faithful name's entry is listed as; its number is the file's own under the condition of DotClusterIff. */
  lemma FileEntry(name: Name, t: FileType, ino: u32, cMs: u8)
    requires Writable(name) && Faithful(name)
    ensures var it := FileItem(name, t, ino, cMs);
            && Listed(it)
            && EntryOf(it) == Dirent(ino % 0x100 + ino / 0x1_0000 % 0x100 * 0x1_0000, t,
                                     if |name| <= 11 then UpperAll(name) else name)
            && (EntryOf(it).ino == ino <==> ino % 0x1_0000 < 0x100 && ino / 0x1_0000 < 0x100)
  {
    var it := FileItem(name, t, ino, cMs);
    ClusterRoundTripIff(name, t, ino, cMs);
    if |name| <= 11 {
      ShortItemMatchesIff(name, t, ino, cMs);
    } else {
      LongItemMatchesIff(name, t, ino, cMs);
    }
    hide Item.Text, Item.Matches, Item.Terminated, ShortSlot, FirstCluster, FileItem, Proper83, HasDot, Listed,
         EntryOf, TypeAttr, Item.Ok, NonZero, UpperAll, Writable;
    EntryFrom(it, FirstCluster(it.s), t);
  }

  lemma EntryFrom(it: Item, ino: nat, t: FileType)
    requires !it.Free? && it.s[11] == TypeAttr(t) && FirstCluster(it.s) == ino
    ensures Listed(it) && EntryOf(it) == Dirent(ino, t, it.Text())
  {
    hide Item.Text, FirstCluster;
  }

  /** The two dot entries are listed as directories. */
  lemma DotEntry(dots: nat, ino: u32)
    requires 1 <= dots <= 2
    ensures var it := Short(DotSlot(dots, ino));
            && Listed(it)
            && EntryOf(it) == Dirent(ino % 0x100 + ino / 0x1_0000 % 0x100 * 0x1_0000, Dir, seq(dots, _ => DOT))
  {
    DotItemIs(dots, ino);
    DotClusterIff(dots, ino);
    hide DotSlot, FirstCluster, Item.Text;
  }

  /** The listed entries in slot order. */
  function Listing(items: seq<Item>): (r: seq<Dirent>)
    ensures |r| <= |Layout(items)|
  {
    if items == [] then []
    else
      var last := items[|items| - 1];
      Listing(items[..|items| - 1]) + if Listed(last) then [EntryOf(last)] else []
  }

  lemma {:induction false} ListingConcat(a: seq<Item>, b: seq<Item>)
    ensures Listing(a + b) == Listing(a) + Listing(b)
  {
    hide Listed, EntryOf, Layout, Item.Slots;
    if b == [] {
      assert a + b == a;
    } else {
      var front := b[..|b| - 1];
      ListingConcat(a, front);
      assert (a + b)[..|a + b| - 1] == a + front && (a + b)[|a + b| - 1] == b[|b| - 1];
    }
  }

  lemma ListingOne(it: Item)
    ensures Listing([it]) == if Listed(it) then [EntryOf(it)] else []
  {
    assert [it][..0] == [];
  }

  lemma {:induction false} NothingListed(items: seq<Item>)
    ensures Listing(items) == [] <==> forall i :: 0 <= i < |items| ==> !Listed(items[i])
  {
    hide Listed, EntryOf, Layout, Item.Slots;
    if items != [] {
      var front := items[..|items| - 1];
      NothingListed(front);
      assert forall i :: 0 <= i < |front| ==> front[i] == items[i];
    }
  }

  /** A new directory is listed as its two dot entries. */
  lemma NewListing(ino: u32, parent: u32)
    ensures Listing([Short(DotSlot(1, ino)), Short(DotSlot(2, parent))]) ==
            [Dirent(ino % 0x100 + ino / 0x1_0000 % 0x100 * 0x1_0000, Dir, [DOT]),
             Dirent(parent % 0x100 + parent / 0x1_0000 % 0x100 * 0x1_0000, Dir, [DOT, DOT])]
  {
    DotEntry(1, ino);
    DotEntry(2, parent);
    hide DotSlot, EntryOf, Listing, Listed;
    ListingOfTwo(Short(DotSlot(1, ino)), Short(DotSlot(2, parent)));
    assert [DOT] == seq(1, _ => DOT) && [DOT, DOT] == seq(2, _ => DOT);
  }

  lemma ListingOfTwo(a: Item, b: Item)
    requires Listed(a) && Listed(b)
    ensures Listing([a, b]) == [EntryOf(a), EntryOf(b)]
  {
    hide EntryOf, Listing, Listed;
    assert [a] + [b] == [a, b];
    ListingConcat([a], [b]);
    ListingOne(a);
    ListingOne(b);
  }
}
