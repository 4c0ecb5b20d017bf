/**
 * What a registration in a directory means for whoever reads the directory (kernel/vfs/fat32.c: fat32_apply_direntry),
 * also when the cluster that the directory grew by still holds old data, and when there was no cluster to grow by.
 */
module DirRegister {
  import opened Common
  import opened DirName
  import opened DirItems

  // ---- the slots determine the items -------------------------------------------------------------------------

  /** Two items that begin at the same slot are one item. */
  lemma SameHead(s: seq<Slot>, a: Item, b: Item)
    requires a.Ok() && b.Ok() && a.Slots() <= s && b.Slots() <= s
    ensures a == b
  {
    assert a.Slots()[0] == s[0] == b.Slots()[0];
    if a.Long? {
      assert a.parts[0] == s[0] == b.Slots()[0];
      assert a.parts == a.Slots()[..|a.parts|] == b.Slots()[..|a.parts|];
    }
  }

  lemma LayoutCons(items: seq<Item>)
    requires items != []
    ensures Layout(items) == items[0].Slots() + Layout(items[1..])
  {
    LayoutOne(items[0]);
    LayoutConcat([items[0]], items[1..]);
    assert items == [items[0]] + items[1..];
  }

  /** A row of items is determined by its slots, as far as they go. */
  lemma {:induction false} RowUnique(s: seq<Slot>, a: seq<Item>, b: seq<Item>)
    requires AllOk(a) && AllOk(b) && Layout(a) <= s && Layout(b) <= s && |Layout(a)| <= |Layout(b)|
    ensures a <= b
  {
    hide Layout, Item.Slots, Item.Ok;
    if a != [] {
      LayoutCons(a);
      LayoutNone();
      LayoutCons(b);
      SameHead(s, a[0], b[0]);
      var head := a[0].Slots();
      BehindPrefix(s, head, Layout(a[1..]));
      BehindPrefix(s, head, Layout(b[1..]));
      RowUnique(s[|head|..], a[1..], b[1..]);
      assert a == [a[0]] + a[1..] && b == [b[0]] + b[1..];
    }
  }

  lemma BehindPrefix(s: seq<Slot>, head: seq<Slot>, rest: seq<Slot>)
    requires head + rest <= s
    ensures |head| <= |s| && rest <= s[|head|..]
  {
    assert rest == (head + rest)[|head|..] == s[|head|..|head| + |rest|];
  }

  /** A well-formed directory begins with every row of items that its slots begin with, and so does what follows. */
  lemma BeginsWith(slots: seq<Slot>, front: seq<Item>, x: seq<Item>)
    requires AllOk(front) && Layout(front) <= slots
    ensures IsDir(slots, x) <==> front <= x && IsDir(slots[|Layout(front)|..], x[|front|..])
  {
    if IsDir(slots, x) {
      NoZeroIn(slots, front);
      RowUnique(slots, front, x);
    }
    if front <= x {
      BehindFront(slots, front, x);
    }
  }

  /** A directory's slots leave no choice of its entries. */
  lemma DirUnique(slots: seq<Slot>, a: seq<Item>, b: seq<Item>)
    requires IsDir(slots, a) && IsDir(slots, b)
    ensures a == b
  {
    NoZeroIn(slots, a);
    NoZeroIn(slots, b);
    assert |Layout(a)| == |Layout(b)|;
    RowUnique(slots, a, b);
    RowUnique(slots, b, a);
  }

  lemma NoZeroIn(slots: seq<Slot>, items: seq<Item>)
    requires AllOk(items) && Layout(items) <= slots
    ensures forall p :: 0 <= p < |Layout(items)| ==> slots[p][0] != 0
  {
    forall p | 0 <= p < |Layout(items)|
      ensures slots[p][0] != 0
    {
      var k := LayoutBytes(items, p);
      assert slots[p] == Layout(items)[p];
    }
  }

  lemma BehindFront(slots: seq<Slot>, front: seq<Item>, x: seq<Item>)
    requires AllOk(front) && Layout(front) <= slots && front <= x
    ensures IsDir(slots, x) <==> IsDir(slots[|Layout(front)|..], x[|front|..])
  {
    hide Layout, AllOk;
    var rest := x[|front|..];
    assert x == front + rest;
    LayoutConcat(front, rest);
    AllOkConcat(front, rest);
    PrefixBehind(slots, Layout(front), Layout(rest));
  }

  lemma PrefixBehind(s: seq<Slot>, head: seq<Slot>, rest: seq<Slot>)
    requires head <= s
    ensures head + rest <= s <==> rest <= s[|head|..]
    ensures |head| + |rest| < |s| ==> s[|head|..][|rest|] == s[|head| + |rest|]
  {
    if head + rest <= s {
      BehindPrefix(s, head, rest);
    }
    if rest <= s[|head|..] {
      assert s == head + s[|head|..];
      assert s[..|head| + |rest|] == head + rest;
    }
  }

  lemma AllOkConcat(a: seq<Item>, b: seq<Item>)
    ensures AllOk(a + b) <==> AllOk(a) && AllOk(b)
  {
    hide Item.Ok;
    if AllOk(a + b) {
      assert forall i :: 0 <= i < |a| ==> a[i] == (a + b)[i];
      assert forall i :: 0 <= i < |b| ==> b[i] == (a + b)[|a| + i];
    }
  }

  // ---- what stands behind a new entry ------------------------------------------------------------------------

  /** A slot that lists nothing: a deleted one, or a plain volume label. */
  predicate Idle(s: Slot) {
    s[0] == DELETED || (s[0] != 0 && s[11] == VOLNAME)
  }

  /** Up to the first unused slot there are only such slots. */
  ghost predicate Blank(slots: seq<Slot>) {
    exists e :: 0 <= e <= |slots| && IdleTo(slots, e)
  }

  ghost predicate IdleTo(slots: seq<Slot>, e: nat)
    requires e <= |slots|
  {
    (forall j :: 0 <= j < e ==> Idle(slots[j])) && (e < |slots| ==> slots[e][0] == 0)
  }

  /** The slots form a directory that lists nothing exactly when that is so. */
  lemma BlankIff(slots: seq<Slot>)
    ensures (exists x :: IsDir(slots, x) && Listing(x) == []) <==> Blank(slots)
  {
    if x :| IsDir(slots, x) && Listing(x) == [] {
      UnlistedIsIdle(slots, x);
    }
    if e :| 0 <= e <= |slots| && IdleTo(slots, e) {
      var x := IdleItems(slots, e);
    }
  }

  lemma UnlistedIsIdle(slots: seq<Slot>, x: seq<Item>)
    requires IsDir(slots, x) && Listing(x) == []
    ensures Blank(slots)
  {
    NothingListed(x);
    SinglesLayout(x);
    hide Layout, Listing;
    forall j | 0 <= j < |x|
      ensures Idle(slots[j])
    {
      assert x[j].Ok() && slots[j] == slots[..|x|][j] == x[j].s;
    }
    assert IdleTo(slots, |x|);
  }

  /** The items that idle slots form: none of them answers to any name. */
  lemma IdleItems(slots: seq<Slot>, e: nat) returns (x: seq<Item>)
    requires e <= |slots| && IdleTo(slots, e)
    ensures IsDir(slots, x) && Listing(x) == [] && AllTerminated(x)
    ensures forall i, q, tq :: 0 <= i < |x| ==> !x[i].Matches(q, tq)
  {
    x := seq(e, j requires 0 <= j < e => if slots[j][0] == DELETED then Free(slots[j]) else Short(slots[j]));
    SinglesLayout(x);
    NothingListed(x);
    hide Layout, Listing;
    assert Layout(x) == slots[..e];
  }

  /** What stands behind `front` adds nothing to the listing exactly when it is blank. */
  lemma FrontListedIff(slots: seq<Slot>, front: seq<Item>)
    requires AllOk(front) && Layout(front) <= slots
    ensures (exists x :: IsDir(slots, x) && multiset(Listing(x)) == multiset(Listing(front))) <==>
            Blank(slots[|Layout(front)|..])
  {
    var rest := slots[|Layout(front)|..];
    BlankIff(rest);
    hide Layout, IsDir, Listing, AllOk, Blank;
    if x :| IsDir(slots, x) && multiset(Listing(x)) == multiset(Listing(front)) {
      BeginsWith(slots, front, x);
      FrontListing(front, x);
    }
    if y :| IsDir(rest, y) && Listing(y) == [] {
      var x := front + y;
      BeginsWith(slots, front, x);
      FrontListing(front, x);
      assert x[|front|..] == y;
    }
  }

  lemma FrontListing(front: seq<Item>, x: seq<Item>)
    requires front <= x
    ensures multiset(Listing(x)) == multiset(Listing(front)) <==> Listing(x[|front|..]) == []
  {
    var rest := x[|front|..];
    assert x == front + rest;
    ListingConcat(front, rest);
    hide Listing;
    assert |multiset(Listing(front) + Listing(rest))| == |Listing(front)| + |Listing(rest)|;
  }

  /** Every name that an item of `rest` answers to is one that `front` answers to already. */
  ghost predicate Shadowed(front: seq<Item>, rest: seq<Item>) {
    forall i, q, tq :: 0 <= i < |rest| && rest[i].Matches(q, tq) ==> Lookup(front, q, tq).Some?
  }

  ghost predicate SameMap(a: seq<Item>, b: seq<Item>) {
    forall q, tq :: Lookup(a, q, tq) == Lookup(b, q, tq)
  }

  /** What stands behind `front` changes no lookup exactly when `front` comes first for all its names. */
  lemma FrontFoundIff(slots: seq<Slot>, front: seq<Item>)
    requires AllOk(front) && Layout(front) <= slots
    ensures (exists x :: IsDir(slots, x) && SameMap(x, front)) <==>
            exists y :: IsDir(slots[|Layout(front)|..], y) && Shadowed(front, y)
  {
    var rest := slots[|Layout(front)|..];
    hide Layout, IsDir, AllOk, SameMap, Shadowed;
    if x :| IsDir(slots, x) && SameMap(x, front) {
      BeginsWith(slots, front, x);
      FrontFound(front, x);
    }
    if y :| IsDir(rest, y) && Shadowed(front, y) {
      var x := front + y;
      BeginsWith(slots, front, x);
      assert x[|front|..] == y;
      FrontFound(front, x);
    }
  }

  lemma FrontFound(front: seq<Item>, x: seq<Item>)
    requires front <= x
    ensures SameMap(x, front) <==> Shadowed(front, x[|front|..])
  {
    var rest := x[|front|..];
    hide Item.Matches, Lookup;
    if Shadowed(front, rest) {
      forall q, tq
        ensures Lookup(x, q, tq) == Lookup(front, q, tq)
      {
        FrontFirst(front, x, q, tq);
      }
    }
    if SameMap(x, front) {
      forall i, q, tq | 0 <= i < |rest| && rest[i].Matches(q, tq)
        ensures Lookup(front, q, tq).Some?
      {
        assert x[|front| + i] == rest[i];
        FoundIff(x, q, tq);
        assert Lookup(x, q, tq) == Lookup(front, q, tq);
      }
    }
  }

  lemma FoundIff(items: seq<Item>, q: Name, tq: FileType)
    ensures Lookup(items, q, tq).Some? <==> exists i :: 0 <= i < |items| && items[i].Matches(q, tq)
  {
    hide Item.Matches;
  }

  lemma FrontFirst(front: seq<Item>, x: seq<Item>, q: Name, tq: FileType)
    requires front <= x
    requires (forall i :: |front| <= i < |x| ==> !x[i].Matches(q, tq)) || Lookup(front, q, tq).Some?
    ensures Lookup(x, q, tq) == Lookup(front, q, tq)
  {
    hide Item.Matches, Layout;
    match FindFrom(front, 0, q, tq)
    case None =>
      LookupNone(x, q, tq);
    case Some(k) =>
      assert x[..k] == front[..k];
      LookupAt(x, k, q, tq);
  }

  // ---- a registration ----------------------------------------------------------------------------------------

  /** The slots that a reader comes to behind a new entry that was not put on a run of deleted slots. */
  function Behind(slots: seq<Slot>, more: seq<Slot>, begin: nat, need: nat): seq<Slot>
    requires begin < |slots| && begin + need <= |slots + more|
  {
    if slots[begin][0] == 0 then (slots + more)[begin + need..] else []
  }

  /** Where a registration goes, onto the free items `[a, b)` or behind the last item, and what it leaves behind it. */
  lemma RegisterPlace(slots: seq<Slot>, items: seq<Item>, more: seq<Slot>, begin: nat, it: Item)
    returns (a: nat, b: nat)
    requires IsDir(slots, items) && IsRoom(slots, |it.Slots()|, begin) && it.Ok()
    requires begin + |it.Slots()| <= |slots| ==> more == []
    requires begin + |it.Slots()| <= |slots + more|
    ensures a <= b <= |items| && Offset(items, a) == begin && forall i :: a <= i < b ==> items[i].Free?
    ensures a == b == |items| || |it.Slots()| == Offset(items, b) - Offset(items, a)
    ensures var front, now := Spliced(items, a, b, [it]), Overwritten(slots + more, begin, it.Slots());
      && AllOk(front) && Layout(front) <= now
      && (if slots[begin][0] == 0 then now[|Layout(front)|..] == Behind(slots, more, begin, |it.Slots()|)
          else now[|Layout(front)|..] == [] || now[|Layout(front)|][0] == 0)
  {
    hide IsDir, Layout, Overwritten, Spliced, Item.Slots, Item.Ok, AllOk;
    if slots[begin][0] == 0 {
      FirstZeroIsEnd(slots, items, begin);
      a, b := |items|, |items|;
      OffsetEnd(items);
      BehindEnd(slots, items, more, it);
      assert items + [it] == Spliced(items, a, b, [it]) by {
        SplicedIndex(items, a, b, [it]);
      }
    } else {
      assert slots + more == slots;
      a := RegisterInRun(slots, items, begin, it);
      b := a + |it.Slots()|;
      DirPrefix(Overwritten(slots, begin, it.Slots()), Spliced(items, a, b, [it]));
    }
  }

  lemma DirPrefix(slots: seq<Slot>, items: seq<Item>)
    requires IsDir(slots, items)
    ensures AllOk(items) && Layout(items) <= slots
    ensures slots[|Layout(items)|..] == [] || slots[|Layout(items)|][0] == 0
  {
  }

  lemma BehindEnd(slots: seq<Slot>, items: seq<Item>, more: seq<Slot>, it: Item)
    requires IsDir(slots, items) && it.Ok()
    requires |Layout(items)| < |slots| && |Layout(items)| + |it.Slots()| <= |slots + more|
    ensures var front, now := items + [it], Overwritten(slots + more, |Layout(items)|, it.Slots());
      && AllOk(front) && Layout(front) <= now
      && now[|Layout(front)|..] == Behind(slots, more, |Layout(items)|, |it.Slots()|)
  {
    hide Layout, Item.Ok, Item.Slots, AllOk;
    LayoutOne(it);
    LayoutConcat(items, [it]);
    AllOkConcat(items, [it]);
    assert AllOk([it]) by {
      OneOk(it);
    }
    var n, all := |Layout(items)|, slots + more;
    assert all[..n] == slots[..n];
  }

  /** Where a lookup leads once `name` leads to `f`. */
  function MapWith(items: seq<Item>, name: Name, t: FileType, f: Found, q: Name, tq: FileType): Option<Found> {
    if SameKey(q, tq, name, t) then Some(f) else Lookup(items, q, tq)
  }

  /** `x` is the map that `items` were, with `name` leading to `f`. */
  ghost predicate Updated(x: seq<Item>, items: seq<Item>, name: Name, t: FileType, f: Found) {
    forall q, tq :: Lookup(x, q, tq) == MapWith(items, name, t, f, q, tq)
  }

  /** The items `y` answer only to names that lead somewhere in that map. */
  ghost predicate Harmless(y: seq<Item>, items: seq<Item>, name: Name, t: FileType, f: Found) {
    forall i, q, tq :: 0 <= i < |y| && y[i].Matches(q, tq) ==> MapWith(items, name, t, f, q, tq).Some?
  }

  /** The row of items up to the new one, and those behind it that were there before, is the updated map. */
  lemma UpdatedFront(items: seq<Item>, a: nat, b: nat, it: Item, name: Name, t: FileType)
    requires a <= b <= |items| && forall i :: a <= i < b ==> items[i].Free?
    requires a == b == |items| || |it.Slots()| == Offset(items, b) - Offset(items, a)
    requires it.Matches(name, t) && Lookup(items, name, t) == None
    ensures Updated(Spliced(items, a, b, [it]), items, name, t, Found(Offset(items, a), |it.Slots()|, it.s))
  {
    hide Spliced, Item.Slots, Layout, Lookup;
    forall q, tq
      ensures Lookup(Spliced(items, a, b, [it]), q, tq) ==
              MapWith(items, name, t, Found(Offset(items, a), |it.Slots()|, it.s), q, tq)
    {
      SameKeySameLookup(items, name, t, q, tq);
      RegisterLookup(items, a, b, it, q, tq);
    }
  }

  lemma ListingOfThree(x: seq<Item>, y: seq<Item>, z: seq<Item>)
    ensures Listing(x + y + z) == Listing(x) + Listing(y) + Listing(z)
  {
    ListingConcat(x, y);
    ListingConcat(x + y, z);
  }

  lemma OneMoreListed(x: seq<Item>, y: seq<Item>, z: seq<Item>, it: Item)
    requires Listing(y) == [] && Listed(it)
    ensures multiset(Listing(x + [it] + z)) == multiset(Listing(x + y + z)) + multiset{EntryOf(it)}
  {
    hide Listing, Listed, EntryOf;
    ListingOfThree(x, y, z);
    ListingOfThree(x, [it], z);
    ListingOne(it);
    OneInBetween(Listing(x), EntryOf(it), Listing(z));
  }

  lemma SplicedListing(items: seq<Item>, a: nat, b: nat, it: Item)
    requires a <= b <= |items| && (forall i :: a <= i < b ==> items[i].Free?) && Listed(it)
    ensures multiset(Listing(Spliced(items, a, b, [it]))) == multiset(Listing(items)) + multiset{EntryOf(it)}
  {
    hide Listing, EntryOf, Layout, Item.Slots, Listed;
    FreeUnlisted(items[a..b]);
    NothingListed(items[a..b]);
    assert items == items[..a] + items[a..b] + items[b..];
    OneMoreListed(items[..a], items[a..b], items[b..], it);
  }

  lemma FreeUnlisted(items: seq<Item>)
    requires forall i :: 0 <= i < |items| ==> items[i].Free?
    ensures forall i :: 0 <= i < |items| ==> !Listed(items[i])
  {
  }

  lemma OneInBetween<T>(a: seq<T>, x: T, b: seq<T>)
    ensures multiset(a + [x] + b) == multiset(a + [] + b) + multiset{x}
  {
    assert a + [] + b == a + b;
  }

  lemma MatchingIsListed(it: Item, name: Name, t: FileType)
    requires it.Matches(name, t)
    ensures Listed(it)
  {
    hide Item.Text;
  }

  lemma StoppedTail(tail: seq<Slot>)
    requires tail == [] || tail[0][0] == 0
    ensures Blank(tail) && IsDir(tail, []) && Shadowed([], [])
  {
    LayoutNone();
    assert IdleTo(tail, 0);
  }

  /**
   * A successful registration leaves a well-formed directory that lists the new entry and otherwise what it listed
   * before, exactly when the slots behind the entry list nothing up to the first unused one.
   */
  lemma RegisterListsIff(slots: seq<Slot>, items: seq<Item>, more: seq<Slot>, begin: nat, it: Item)
    requires IsDir(slots, items) && IsRoom(slots, |it.Slots()|, begin) && it.Ok() && Listed(it)
    requires begin + |it.Slots()| <= |slots| ==> more == []
    requires begin + |it.Slots()| <= |slots + more|
    ensures var now := Overwritten(slots + more, begin, it.Slots());
      (exists x :: IsDir(now, x) && multiset(Listing(x)) == multiset(Listing(items)) + multiset{EntryOf(it)}) <==>
      Blank(Behind(slots, more, begin, |it.Slots()|))
  {
    var a, b := RegisterPlace(slots, items, more, begin, it);
    hide IsDir, IsRoom, Layout, Overwritten, Spliced, Item.Slots, Item.Ok, AllOk, Listing, Blank, EntryOf, Listed;
    var front, now := Spliced(items, a, b, [it]), Overwritten(slots + more, begin, it.Slots());
    FrontListedIff(now, front);
    SplicedListing(items, a, b, it);
    if slots[begin][0] != 0 {
      StoppedTail(now[|Layout(front)|..]);
      StoppedTail([]);
    }
  }

  /**
   * It leaves a well-formed directory in which the new name leads to the new entry and every other name to what it led
   * to before, exactly when those slots are items that answer only to names found before them.
   */
  lemma RegisterFindsIff(slots: seq<Slot>, items: seq<Item>, more: seq<Slot>, begin: nat, it: Item, name: Name,
                         t: FileType)
    requires IsDir(slots, items) && IsRoom(slots, |it.Slots()|, begin) && it.Ok()
    requires it.Matches(name, t) && Lookup(items, name, t) == None
    requires begin + |it.Slots()| <= |slots| ==> more == []
    requires begin + |it.Slots()| <= |slots + more|
    ensures var now, f := Overwritten(slots + more, begin, it.Slots()), Found(begin, |it.Slots()|, it.s);
      (exists x :: IsDir(now, x) && Updated(x, items, name, t, f)) <==>
      (exists y :: IsDir(Behind(slots, more, begin, |it.Slots()|), y) && Harmless(y, items, name, t, f))
  {
    var a, b := RegisterPlace(slots, items, more, begin, it);
    hide IsDir, IsRoom, Layout, Overwritten, Spliced, Item.Slots, Item.Ok, AllOk, Updated, Harmless;
    var front, now := Spliced(items, a, b, [it]), Overwritten(slots + more, begin, it.Slots());
    var f := Found(begin, |it.Slots()|, it.s);
    UpdatedFront(items, a, b, it, name, t);
    FrontFoundIff(now, front);
    var tail, behind := now[|Layout(front)|..], Behind(slots, more, begin, |it.Slots()|);
    forall x
      ensures Updated(x, items, name, t, f) <==> SameMap(x, front)
      ensures Harmless(x, items, name, t, f) <==> Shadowed(front, x)
    {
      SameUpdate(x, front, items, name, t, f);
    }
    if slots[begin][0] != 0 {
      StoppedTail(tail);
      StoppedTail(behind);
      assert Shadowed(front, []);
    }
  }

  lemma SameUpdate(x: seq<Item>, front: seq<Item>, items: seq<Item>, name: Name, t: FileType, f: Found)
    requires Updated(front, items, name, t, f)
    ensures Updated(x, items, name, t, f) <==> SameMap(x, front)
    ensures Harmless(x, items, name, t, f) <==> Shadowed(front, x)
  {
    hide Lookup, MapWith, Item.Matches;
  }

  /** With blank slots behind the entry everything that a directory should be is kept. */
  lemma RegisterKeeps(slots: seq<Slot>, items: seq<Item>, more: seq<Slot>, begin: nat, it: Item, name: Name,
                      t: FileType) returns (items': seq<Item>)
    requires IsDir(slots, items) && IsRoom(slots, |it.Slots()|, begin) && it.Ok()
    requires it.Matches(name, t) && Lookup(items, name, t) == None
    requires begin + |it.Slots()| <= |slots| ==> more == []
    requires begin + |it.Slots()| <= |slots + more|
    requires Blank(Behind(slots, more, begin, |it.Slots()|))
    ensures IsDir(Overwritten(slots + more, begin, it.Slots()), items')
    ensures Updated(items', items, name, t, Found(begin, |it.Slots()|, it.s))
    ensures AllTerminated(items) && it.Terminated() ==> AllTerminated(items')
    ensures NoDuplicates(items) ==> NoDuplicates(items')
  {
    var a, b := RegisterPlace(slots, items, more, begin, it);
    var front, now := Spliced(items, a, b, [it]), Overwritten(slots + more, begin, it.Slots());
    var tail := now[|Layout(front)|..];
    hide IsDir, IsRoom, Layout, Overwritten, Spliced, Item.Slots, Item.Ok, Item.Terminated, AllOk, Updated;
    if slots[begin][0] != 0 {
      StoppedTail(tail);
    }
    var e :| 0 <= e <= |tail| && IdleTo(tail, e);
    var y := IdleItems(tail, e);
    items' := front + y;
    BeginsWith(now, front, items');
    assert items'[|front|..] == y;
    UpdatedFront(items, a, b, it, name, t);
    TerminatedSpliced(items, a, b, it);
    RegisteredNoDuplicates(items, a, b, it, name, t);
    IdleBehind(front, y);
    SameUpdate(items', front, items, name, t, Found(begin, |it.Slots()|, it.s));
  }

  /** Items that answer to nothing, put behind a row. */
  lemma IdleBehind(front: seq<Item>, y: seq<Item>)
    requires forall i, q, tq :: 0 <= i < |y| ==> !y[i].Matches(q, tq)
    ensures SameMap(front + y, front)
    ensures AllTerminated(front) && AllTerminated(y) ==> AllTerminated(front + y)
    ensures NoDuplicates(front) ==> NoDuplicates(front + y)
  {
    hide Item.Matches, Item.Terminated, Once;
    var x := front + y;
    assert x[|front|..] == y && forall i :: |front| <= i < |x| ==> x[i] == y[i - |front|];
    FrontFound(front, x);
    if NoDuplicates(front) {
      forall q, tq
        ensures Once(x, q, tq)
      {
        assert Once(front, q, tq);
        OnceInFront(front, x, q, tq);
      }
    }
  }

  lemma OnceInFront(front: seq<Item>, x: seq<Item>, q: Name, tq: FileType)
    requires front <= x && Once(front, q, tq) && forall i :: |front| <= i < |x| ==> !x[i].Matches(q, tq)
    ensures Once(x, q, tq)
  {
    hide Item.Matches;
  }

  // ---- a registration that gave up ---------------------------------------------------------------------------

  /**
   * A long name of which only the first slots were written, up to the end of the directory: there is no row of items
   * that the slots could be.
   */
  lemma CutOffIsNoDirectory(slots: seq<Slot>, items: seq<Item>, begin: nat, part: seq<Slot>, x: seq<Item>)
    requires IsDir(slots, items) && begin < |slots| && slots[begin][0] == 0
    requires forall j :: 0 <= j < begin ==> slots[j][0] != 0
    requires part != [] && begin + |part| == |slots|
    requires Used(part[0]) && part[0][11] == LONGNAME && |part| <= part[0][0] % 0x40
    ensures !IsDir(Overwritten(slots, begin, part), x)
  {
    var now := Overwritten(slots, begin, part);
    FirstZeroIsEnd(slots, items, begin);
    assert now[begin..] == part;
    hide Layout, IsDir;
    if IsDir(now, x) {
      DirPrefix(slots, items);
      BeginsWith(now, items, x);
      NoLongHead(part, x[|items|..]);
    }
  }

  lemma NoLongHead(part: seq<Slot>, x: seq<Item>)
    requires part != [] && Used(part[0]) && part[0][11] == LONGNAME && |part| <= part[0][0] % 0x40
    ensures !IsDir(part, x)
  {
    LayoutNone();
    if x != [] {
      LayoutCons(x);
      hide Layout, Item.Slots, Item.Ok;
      if IsDir(part, x) {
        assert part[0] == part[..|Layout(x)|][0];
        LongHead(x[0]);
      }
    }
  }

  lemma LongHead(it: Item)
    requires it.Ok() && Used(it.Slots()[0])
    ensures it.Slots()[0][11] == LONGNAME ==> |it.Slots()| == it.Slots()[0][0] % 0x40 + 1
  {
  }

  // ---- both in one directory ---------------------------------------------------------------------------------

  const UNUSED: Slot := seq(DIRENTRY_LEN, _ => 0)

  /** A file with a name of one letter. */
  function LetterSlot(i: nat): Slot
    requires i < 31
  {
    ShortSlot([0x41 + i], Norm, i + 3, 0)
  }

  /** One page: thirty-one files with names of one letter, and one unused slot. */
  function LetterSlots(): seq<Slot> {
    seq(31, i requires 0 <= i < 31 => LetterSlot(i)) + [UNUSED]
  }

  function LetterItems(): seq<Item> {
    seq(31, i requires 0 <= i < 31 => Short(LetterSlot(i)))
  }

  /** "letters.text", a name of two slots. */
  function TwoSlotName(): (name: Name)
    ensures Writable(name) && SlotCount(name) == 2
  {
    [0x6c, 0x65, 0x74, 0x74, 0x65, 0x72, 0x73, DOT, 0x74, 0x65, 0x78, 0x74]
  }

  lemma LetterDirectory()
    ensures IsDir(LetterSlots(), LetterItems()) && IsRoom(LetterSlots(), 2, 31)
    ensures forall i :: 0 <= i < 31 ==> LetterSlots()[i][0] != 0
  {
    hide ShortSlot;
    forall i | 0 <= i < 31
      ensures LetterSlot(i)[0] == 0x41 + i && LetterSlot(i)[11] == ARCHIVE
    {
      assert LetterSlot(i)[0] == LetterSlot(i)[..11][0];
    }
    SinglesLayout(LetterItems());
    hide Layout;
    assert Layout(LetterItems()) == LetterSlots()[..31];
    forall b | 0 <= b < 31
      ensures !RunAt(LetterSlots(), b, 2)
    {
      assert LetterSlots()[b][0] != DELETED;
    }
  }

  /** Registering the name there with no cluster to grow by leaves a page that is no directory any more. */
  lemma CutOffExample(ino: u32, cMs: u8, x: seq<Item>)
    ensures IsDir(LetterSlots(), LetterItems()) && IsRoom(LetterSlots(), SlotCount(TwoSlotName()), 31)
    ensures !IsDir(Overwritten(LetterSlots(), 31, FileSlots(TwoSlotName(), Norm, ino, cMs)[..1]), x)
  {
    LetterDirectory();
    SlotShape(TwoSlotName(), Norm, ino, cMs);
    hide IsDir, FileSlots, LetterSlot, LetterItems;
    CutOffIsNoDirectory(LetterSlots(), LetterItems(), 31, FileSlots(TwoSlotName(), Norm, ino, cMs)[..1], x);
  }

  /** The entry of a file "ZZ". */
  function StaleSlot(): Slot {
    ShortSlot(STALE_NAME, Norm, 99, 0)
  }

  const STALE_NAME: Name := [0x5a, 0x5a]

  lemma StaleItem()
    ensures Short(StaleSlot()).Ok() && Short(StaleSlot()).Matches(STALE_NAME, Norm)
  {
    FileItemMatchesIff(STALE_NAME, Norm, 99, 0);
    HasDotIff(STALE_NAME);
    assert Proper83(STALE_NAME);
    assert FileItem(STALE_NAME, Norm, 99, 0) == Short(StaleSlot()) by {
      assert FileSlots(STALE_NAME, Norm, 99, 0) == [StaleSlot()];
    }
  }

  /** A cluster whose second slot is still that entry. */
  function StaleCluster(): (more: seq<Slot>)
    ensures |more| == 32
  {
    [UNUSED, StaleSlot()] + seq(30, _ => UNUSED)
  }

  /**
   * Registering the name there while the directory grows by that cluster leaves a directory in which a file "ZZ" is
   * found that was not there before.
   */
  lemma PhantomExample(ino: u32, cMs: u8)
    ensures IsDir(LetterSlots(), LetterItems()) && IsRoom(LetterSlots(), SlotCount(TwoSlotName()), 31)
    ensures var now := Overwritten(LetterSlots() + StaleCluster(), 31, FileSlots(TwoSlotName(), Norm, ino, cMs));
      && Lookup(LetterItems(), STALE_NAME, Norm) == None
      && !Blank(Behind(LetterSlots(), StaleCluster(), 31, 2))
      && (exists x :: IsDir(now, x))
      && (forall x :: IsDir(now, x) ==> Lookup(x, STALE_NAME, Norm).Some?)
  {
    LetterDirectory();
    NoLetterIsStale();
    StaleItem();
    FileItemMatchesIff(TwoSlotName(), Norm, ino, cMs);
    BehindTwo();
    hide FileItem, FileSlots, LetterSlots, LetterItems, IsDir, Layout, StaleSlot, StaleCluster, Item.Matches, Item.Ok,
         Behind, Blank, Lookup, Overwritten, TwoSlotName;
    FirstZeroIsEnd(LetterSlots(), LetterItems(), 31);
    PhantomFile(LetterSlots(), LetterItems(), StaleCluster(), FileItem(TwoSlotName(), Norm, ino, cMs),
                Short(StaleSlot()), STALE_NAME, Norm);
  }

  /** A live entry behind the new one is found. */
  lemma PhantomFile(slots: seq<Slot>, items: seq<Item>, more: seq<Slot>, it: Item, g: Item, q: Name, tq: FileType)
    requires IsDir(slots, items) && it.Ok() && g.Ok() && g.Matches(q, tq)
    requires |Layout(items)| < |slots| && |Layout(items)| + |it.Slots()| <= |slots + more|
    requires IsDir(Behind(slots, more, |Layout(items)|, |it.Slots()|), [g])
    ensures var now := Overwritten(slots + more, |Layout(items)|, it.Slots());
      (exists x :: IsDir(now, x)) && forall x :: IsDir(now, x) ==> Lookup(x, q, tq).Some?
  {
    hide Layout, IsDir, Item.Slots, Item.Ok, Item.Matches, Overwritten, Behind, Lookup;
    BehindEnd(slots, items, more, it);
    var front, now := items + [it], Overwritten(slots + more, |Layout(items)|, it.Slots());
    var behind := Behind(slots, more, |Layout(items)|, |it.Slots()|);
    assert (front + [g])[|front|..] == [g];
    BeginsWith(now, front, front + [g]);
    forall x | IsDir(now, x)
      ensures Lookup(x, q, tq).Some?
    {
      BeginsWith(now, front, x);
      DirPrefix(behind, [g]);
      BeginsWith(behind, [g], x[|front|..]);
      assert x[|front|] == x[|front|..][0] == g;
      FoundIff(x, q, tq);
    }
  }

  lemma BehindTwo()
    ensures var behind := Behind(LetterSlots(), StaleCluster(), 31, 2);
      IsDir(behind, [Short(StaleSlot())]) && !Blank(behind)
  {
    hide Layout, ShortSlot, LetterSlot;
    StaleItem();
    var behind := Behind(LetterSlots(), StaleCluster(), 31, 2);
    LayoutOne(Short(StaleSlot()));
    OneOk(Short(StaleSlot()));
    assert behind[0] == StaleSlot() && behind[1] == UNUSED;
    hide StaleSlot;
    assert behind[..1] == [StaleSlot()];
  }

  lemma NoLetterIsStale()
    ensures Lookup(LetterItems(), STALE_NAME, Norm) == None
  {
    forall i | 0 <= i < 31
      ensures !LetterItems()[i].Matches(STALE_NAME, Norm)
    {
      LetterText(i);
    }
    LookupNone(LetterItems(), STALE_NAME, Norm);
  }

  lemma LetterText(i: nat)
    requires i < 31
    ensures |ShortText(LetterSlot(i))| == 1
  {
    var name: Name := [0x41 + i];
    HasDotIff(name);
    assert Proper83(name);
    ShortTextIff(name, Norm, i + 3, 0);
  }
}
