/**
 * The intrusive circular lists under the scheduler, the page cache and the allocators (include/zjunix/list.h): the
 * pointer operations, proved against operations on sequences.
 */
module CircularList {
  import opened Common

  /** `struct list_head`; a deleted entry's poisoned links are null here. */
  class ListHead {
    var prev: ListHead?
    var next: ListHead?

    /** `INIT_LIST_HEAD`. */
    constructor ()
      ensures Ring([this])
    {
      prev, next := this, this;
    }
  }

  /** The nodes of `r`, in this order and no others, form a circle in both directions. */
  ghost predicate Ring(r: seq<ListHead>)
    reads Elements(r)
  {
    && |r| > 0 && Distinct(r)
    && (forall i, j :: 0 <= i < j < |r| && j == i + 1 ==> r[i].next == r[j] && r[j].prev == r[i])
    && r[|r| - 1].next == r[0] && r[0].prev == r[|r| - 1]
  }

  /** The list that a ring is, seen from its head: the entries after it. */
  ghost predicate IsList(head: ListHead, entries: seq<ListHead>)
    reads Elements([head] + entries)
  {
    Ring([head] + entries)
  }

  /** The nodes before and after entry `k`. */
  function Before(head: ListHead, entries: seq<ListHead>, k: nat): ListHead
    requires k <= |entries|
  {
    if k == 0 then head else entries[k - 1]
  }

  function After(head: ListHead, entries: seq<ListHead>, k: nat): ListHead
    requires k < |entries|
  {
    if k == |entries| - 1 then head else entries[k + 1]
  }

  /** What a list means for its head. */
  lemma HeadLinks(head: ListHead, entries: seq<ListHead>)
    requires IsList(head, entries)
    ensures Distinct(entries) && head !in entries
    ensures head.next == (if entries == [] then head else entries[0])
    ensures head.prev == Before(head, entries, |entries|)
  {
    var r := [head] + entries;
    assert forall k :: 0 <= k < |entries| ==> r[k + 1] == entries[k];
    forall i, j | 0 <= i < j < |entries|
      ensures entries[i] != entries[j]
    {
      assert r[i + 1] != r[j + 1];
    }
    forall k | 0 <= k < |entries|
      ensures entries[k] != head
    {
      assert r[0] != r[k + 1];
    }
    if entries != [] {
      assert r[0].next == r[1];
    }
  }

  /** And for an entry. */
  lemma EntryLinks(head: ListHead, entries: seq<ListHead>, k: nat)
    requires IsList(head, entries) && k < |entries|
    ensures entries[k].prev == Before(head, entries, k) && entries[k].next == After(head, entries, k)
  {
    var r := [head] + entries;
    assert r[k + 1] == entries[k] && (k > 0 ==> r[k] == entries[k - 1]);
    assert r[k].next == r[k + 1] && r[k + 1].prev == r[k];
    if k + 2 < |r| {
      assert r[k + 1].next == r[k + 2];
    }
  }

  /** `__list_add`: between two neighbours, or between the last node and the first. */
  method Insert(node: ListHead, prev: ListHead, next: ListHead, ghost r: seq<ListHead>, ghost k: nat)
    requires Ring(r) && node !in r && k < |r|
    requires prev == r[k] && next == if k == |r| - 1 then r[0] else r[k + 1]
    modifies node, prev, next
    ensures Ring(r[..k + 1] + [node] + r[k + 1..])
  {
    node.next := next;
    node.prev := prev;
    prev.next := node;
    next.prev := node;
  }

  /** `list_add`: at the front. */
  method Add(node: ListHead, head: ListHead, ghost entries: seq<ListHead>)
    requires IsList(head, entries) && node != head && node !in entries
    modifies node, head, Elements(entries)
    ensures IsList(head, [node] + entries)
  {
    HeadLinks(head, entries);
    ghost var r := [head] + entries;
    Insert(node, head, head.next, r, 0);
    assert r[..1] + [node] + r[1..] == [head] + ([node] + entries);
  }

  /** `list_add_tail`: at the back. */
  method AddTail(node: ListHead, head: ListHead, ghost entries: seq<ListHead>)
    requires IsList(head, entries) && node != head && node !in entries
    modifies node, head, Elements(entries)
    ensures IsList(head, entries + [node])
  {
    HeadLinks(head, entries);
    ghost var r := [head] + entries;
    Insert(node, head.prev, head, r, |r| - 1);
    assert r[..|r|] + [node] + r[|r|..] == [head] + (entries + [node]);
  }

  /** A sequence without its element `k`. */
  function RemoveAt(s: seq<ListHead>, k: nat): (r: seq<ListHead>)
    requires k < |s|
    ensures |r| == |s| - 1
    ensures forall i :: 0 <= i < |r| ==> r[i] == if i < k then s[i] else s[i + 1]
  {
    s[..k] + s[k + 1..]
  }

  lemma RemovedApart(s: seq<ListHead>, k: nat)
    requires k < |s| && Distinct(s)
    ensures Distinct(RemoveAt(s, k)) && s[k] !in RemoveAt(s, k)
  {
  }

  /** `__list_del`: the neighbours of a node are joined; the node itself keeps its links. */
  method Unlink(prev: ListHead, next: ListHead, ghost r: seq<ListHead>, ghost k: nat)
    requires Ring(r) && 0 < k < |r| && prev == r[k].prev && next == r[k].next
    modifies prev, next
    ensures Ring(RemoveAt(r, k))
  {
    assert prev == r[k - 1] && next == (if k == |r| - 1 then r[0] else r[k + 1]) by {
      assert r[k - 1].next == r[k];
    }
    RemovedApart(r, k);
    ghost var after := RemoveAt(r, k);
    assert k == |r| - 1 ==> after[|after| - 1] == prev;
    prev.next := next;
    next.prev := prev;
    forall i, j | 0 <= i < j < |after| && j == i + 1
      ensures after[i].next == after[j] && after[j].prev == after[i]
    {
      if i == k - 1 {
      } else if i < k - 1 {
        assert old(r[i].next == r[j] && r[j].prev == r[i]);
      } else {
        assert old(r[i + 1].next == r[j + 1] && r[j + 1].prev == r[i + 1]);
      }
    }
  }

  /** `list_del`. */
  method Del(entry: ListHead, ghost head: ListHead, ghost entries: seq<ListHead>, ghost k: nat)
    requires IsList(head, entries) && k < |entries| && entry == entries[k]
    modifies head, Elements(entries)
    ensures IsList(head, RemoveAt(entries, k)) && entry.prev == null && entry.next == null
  {
    Detach(entry, head, entries, k);
    entry.prev := null;
    entry.next := null;
  }

  /** What the three kinds of deletion have in common. */
  method Detach(entry: ListHead, ghost head: ListHead, ghost entries: seq<ListHead>, ghost k: nat)
    requires IsList(head, entries) && k < |entries| && entry == entries[k]
    modifies head, Elements(entries)
    ensures IsList(head, RemoveAt(entries, k)) && entry != head && entry !in RemoveAt(entries, k)
  {
    HeadLinks(head, entries);
    EntryLinks(head, entries, k);
    RemovedApart(entries, k);
    ghost var r := [head] + entries;
    assert RemoveAt(r, k + 1) == [head] + RemoveAt(entries, k);
    Unlink(entry.prev, entry.next, r, k + 1);
  }

  /** `list_del_init`: the entry is an empty list of its own afterwards. */
  method DelInit(entry: ListHead, ghost head: ListHead, ghost entries: seq<ListHead>, ghost k: nat)
    requires IsList(head, entries) && k < |entries| && entry == entries[k]
    modifies head, Elements(entries)
    ensures IsList(head, RemoveAt(entries, k)) && IsList(entry, [])
  {
    Detach(entry, head, entries, k);
    entry.prev := entry;
    entry.next := entry;
  }

  /** `list_move_tail`: from wherever it is to the end of a list, the same or another one. */
  method MoveTail(entry: ListHead, head: ListHead, ghost from: ListHead, ghost entries: seq<ListHead>, ghost k: nat,
                  ghost others: seq<ListHead>)
    requires IsList(from, entries) && k < |entries| && entry == entries[k] && IsList(head, others)
    requires (head == from && others == entries) || Elements([from] + entries) !! Elements([head] + others)
    modifies from, head, Elements(entries), Elements(others)
    ensures head == from ==> IsList(head, RemoveAt(entries, k) + [entry])
    ensures head != from ==> IsList(from, RemoveAt(entries, k)) && IsList(head, others + [entry])
  {
    ghost var rest := if head == from then RemoveAt(entries, k) else others;
    NodesOf(from, entries);
    NodesOf(head, others);
    NodesOf(from, RemoveAt(entries, k));
    hide Elements;
    Detach(entry, from, entries, k);
    assert IsList(head, rest);
    AddTail(entry, head, rest);
  }

  lemma NodesOf(head: ListHead, entries: seq<ListHead>)
    ensures Elements([head] + entries) == {head} + Elements(entries)
    ensures forall n :: n in Elements(entries) <==> n in entries
  {
  }

  /** `list_empty`. */
  method IsEmpty(head: ListHead, ghost entries: seq<ListHead>) returns (empty: bool)
    requires IsList(head, entries)
    ensures empty <==> entries == []
  {
    HeadLinks(head, entries);
    return head.next == head;
  }

  /** `list_for_each`: the walk from the head visits exactly the entries, in order, and comes back. */
  method Walk(head: ListHead, ghost entries: seq<ListHead>) returns (visited: seq<ListHead>)
    requires IsList(head, entries)
    ensures visited == entries
  {
    HeadLinks(head, entries);
    visited := [];
    var pos := head.next;
    while pos != head
      invariant |visited| <= |entries| && visited == entries[..|visited|]
      invariant pos == if |visited| < |entries| then entries[|visited|] else head
      decreases |entries| - |visited|
    {
      EntryLinks(head, entries, |visited|);
      visited := visited + [pos];
      pos := pos.next;
    }
  }
}
