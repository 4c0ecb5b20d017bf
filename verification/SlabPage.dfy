/**
 * One page of the slab allocator: bump allocation and the free list kept inside the freed objects
 * (kernel/mm/myslab.c: format_slabpage, slab_alloc, slab_free; include/zjunix/slab.h).
 */
module SlabPage {
  import opened Common

  const PAGE_SIZE := 4096
  /** `sizeof(struct slab_head)`. */
  const HEAD := 12

  /** Where object `k` lies, as an offset into the page. */
  function At(size: nat, k: nat): nat {
    HEAD + k * size
  }

  lemma AtStep(size: nat, k: nat)
    ensures At(size, 0) == 12 && At(size, k + 1) == At(size, k) + size
  {
    assert (k + 1) * size == k * size + size;
  }

  lemma AtMonotone(size: nat, j: nat, k: nat)
    requires j <= k
    ensures At(size, j) <= At(size, k)
  {
    assert k * size == j * size + (k - j) * size;
  }

  /** The first `n` objects. */
  ghost function Objects(size: nat, n: nat): (s: set<nat>)
    ensures |s| <= n
  {
    if n == 0 then {} else Objects(size, n - 1) + {At(size, n - 1)}
  }

  lemma {:induction false} ObjectsBelow(size: nat, n: nat)
    ensures forall o :: o in Objects(size, n) ==> HEAD <= o && o + size <= At(size, n)
  {
    if n > 0 {
      ObjectsBelow(size, n - 1);
      AtStep(size, n - 1);
    }
  }

  lemma {:induction false} ObjectsCount(size: nat, n: nat)
    requires size > 0
    ensures |Objects(size, n)| == n
  {
    if n > 0 {
      ObjectsCount(size, n - 1);
      ObjectsBelow(size, n - 1);
    }
  }

  /** Different objects do not overlap. */
  lemma {:induction false} ObjectsApart(size: nat, n: nat, x: nat, y: nat)
    requires x in Objects(size, n) && y in Objects(size, n) && x != y
    ensures x + size <= y || y + size <= x
  {
    ObjectsBelow(size, n - 1);
    var last := At(size, n - 1);
    if x != last && y != last {
      ObjectsApart(size, n - 1, x, y);
    }
  }

  /** `first` and the links from it on spell out the list `q`; 0 ends it. */
  ghost predicate Chain(first: nat, link: map<nat, nat>, q: seq<nat>)
    decreases |q|
  {
    if q == [] then first == 0
    else first == q[0] && first != 0 && first in link && Chain(link[first], link, q[1..])
  }

  lemma {:induction false} ChainKept(first: nat, link: map<nat, nat>, q: seq<nat>, o: nat, x: nat)
    requires Chain(first, link, q) && o !in q
    ensures Chain(first, link[o := x], q)
    decreases |q|
  {
    if q != [] {
      assert q[0] in q;
      ChainKept(link[first], link, q[1..], o, x);
    }
  }

  /** Taking the first element off a list of distinct ones. */
  lemma TailElements(q: seq<nat>)
    requires q != [] && Distinct(q)
    ensures Distinct(q[1..]) && Elements(q) == Elements(q[1..]) + {q[0]} && q[0] !in Elements(q[1..])
  {
    assert forall x :: x in q <==> x in q[1..] || x == q[0];
  }

  /** Putting a new element in front. */
  lemma ConsElements(q: seq<nat>, x: nat)
    requires Distinct(q) && x !in q
    ensures Distinct([x] + q) && Elements([x] + q) == Elements(q) + {x}
  {
    assert forall y :: y in [x] + q <==> y in q || y == x;
  }

  /** An object changes sides in a partition. */
  lemma Given(live: set<nat>, freed: set<nat>, obj: nat)
    requires live !! freed && obj in live
    ensures (live - {obj}) + (freed + {obj}) == live + freed && (live - {obj}) !! (freed + {obj})
    ensures |live - {obj}| == |live| - 1
  {
    assert live == (live - {obj}) + {obj};
  }

  /** And an object is added to it. */
  lemma Joined(live: set<nat>, freed: set<nat>, obj: nat)
    requires live !! freed && obj !in live + freed
    ensures (live + {obj}) + freed == (live + freed) + {obj} && (live + {obj}) !! freed
    ensures |live + {obj}| == |live| + 1
  {
  }

  class Page {
    const size: nat
    var slabp: nat
    var endPtr: nat
    var nrObjs: nat
    var isFull: bool
    /** The first word of each object that was ever freed. */
    var link: map<nat, nat>
    ghost var bumped: nat
    ghost var live: set<nat>
    ghost var freed: seq<nat>

    /** Live and freed objects partition the objects ever handed out; the counters agree. */
    ghost predicate Valid()
      reads this
    {
      && size > 0
      && endPtr == At(size, bumped)
      && Distinct(freed)
      && live + Elements(freed) == Objects(size, bumped) && live !! Elements(freed)
      && nrObjs == |live|
      && Chain(slabp, link, freed)
    }

    /** As long as this holds, what is handed out lies in the page. */
    predicate Roomy()
      reads this
    {
      isFull || endPtr + size < PAGE_SIZE
    }

    /** `format_slabpage`. */
    constructor (size: nat)
      requires 0 < size && HEAD + size < PAGE_SIZE
      ensures Valid() && Roomy() && this.size == size && live == {} && freed == []
      ensures slabp == 0 && endPtr == HEAD && !isFull
    {
      this.size := size;
      slabp, endPtr, nrObjs, isFull := 0, HEAD, 0, false;
      link := map[];
      bumped, live, freed := 0, {}, [];
    }

    /** The free list is empty exactly when its head is 0. */
    lemma FreedHead()
      requires Valid()
      ensures slabp == 0 <==> freed == []
      ensures slabp != 0 ==> freed[0] == slabp && slabp in link && Chain(link[slabp], link, freed[1..])
    {
    }

    /** From the free list. */
    method Pop() returns (obj: nat)
      requires Valid() && slabp != 0
      modifies this
      ensures Valid() && obj == old(slabp) && obj !in old(live) && live == old(live) + {obj}
      ensures freed == old(freed)[1..] && endPtr == old(endPtr) && isFull == old(isFull)
    {
      hide Objects, Chain, Distinct, Elements;
      FreedHead();
      TailElements(freed);
      obj := slabp;
      slabp := link[slabp];
      nrObjs := nrObjs + 1;
      live, freed := live + {obj}, freed[1..];
    }

    /** From the space behind the last object. */
    method Bump() returns (obj: nat)
      requires Valid() && slabp == 0
      modifies this
      ensures Valid() && obj == old(endPtr) && obj !in old(live) && live == old(live) + {obj}
      ensures freed == [] && endPtr == old(endPtr) + size
      ensures isFull == (old(isFull) || endPtr + size >= PAGE_SIZE)
    {
      hide Distinct, At, Chain;
      FreedHead();
      ObjectsBelow(size, bumped);
      AtStep(size, bumped);
      assert Elements(freed) == {};
      Joined(live, {}, endPtr);
      obj := endPtr;
      endPtr := obj + size;
      nrObjs := nrObjs + 1;
      if endPtr + size >= PAGE_SIZE {
        isFull := true;
      }
      live, bumped := live + {obj}, bumped + 1;
    }

    /**
     * `slab_alloc` on this page: the free list first, then the space behind the last object.  There is no path for a
     * page that has neither.
     */
    method Alloc() returns (obj: Option<nat>)
      requires Valid()
      modifies this
      ensures Valid()
      ensures obj == None <==> old(slabp == 0 && isFull)
      ensures obj == None ==> unchanged(this)
      ensures slabp == 0 <==> freed == []
      ensures obj.Some? ==> obj.value !in old(live) && live == old(live) + {obj.value}
      ensures old(slabp) != 0 ==>
        && obj == Some(old(slabp)) && freed == old(freed)[1..] && endPtr == old(endPtr) && isFull == old(isFull)
      ensures old(slabp == 0 && !isFull) ==>
        && obj == Some(old(endPtr)) && freed == [] && endPtr == old(endPtr) + size
        && isFull == (endPtr + size >= PAGE_SIZE)
      ensures old(Roomy()) ==> Roomy() && (old(endPtr) <= PAGE_SIZE ==> endPtr <= PAGE_SIZE)
      ensures obj.Some? && old(endPtr) <= PAGE_SIZE ==>
        (obj.value + size <= PAGE_SIZE <==> old(slabp != 0 || endPtr + size <= PAGE_SIZE))
    {
      hide Page.Valid;
      FreedHead();
      if slabp != 0 {
        var o := Pop();
        FreedHead();
        InPage(o);
        return Some(o);
      }
      if !isFull {
        var o := Bump();
        FreedHead();
        return Some(o);
      }
      return None;
    }

    /**
     * `slab_free` of a live object; `empty` tells that the page now goes back to the buddy system.  The page counts as
     * not full afterwards even if there is no space behind the last object.
     */
    method Free(obj: nat) returns (empty: bool)
      requires Valid() && obj in live
      modifies this
      ensures Valid() && live == old(live) - {obj} && freed == [obj] + old(freed)
      ensures slabp == obj != 0 && endPtr == old(endPtr) && !isFull && bumped == old(bumped) && empty == (live == {})
      ensures Roomy() <==> endPtr + size < PAGE_SIZE
    {
      hide Objects, Distinct, Elements, At;
      InPage(obj);
      ConsElements(freed, obj);
      ChainKept(slabp, link, freed, obj, slabp);
      Given(live, Elements(freed), obj);
      live, freed := live - {obj}, [obj] + freed;
      link := link[obj := slabp];
      slabp := obj;
      nrObjs := nrObjs - 1;
      if isFull {
        isFull := false;
      }
      return nrObjs == 0;
    }

    /** Live objects lie before the bump pointer and do not overlap. */
    lemma AllApart()
      requires Valid()
      ensures forall x :: x in live ==> HEAD <= x && x + size <= endPtr
      ensures forall x, y :: x in live && y in live && x != y ==> x + size <= y || y + size <= x
    {
      ObjectsBelow(size, bumped);
      forall x, y | x in live && y in live && x != y
        ensures x + size <= y || y + size <= x
      {
        ObjectsApart(size, bumped, x, y);
      }
    }

    lemma InOrder()
      requires Valid() && endPtr <= PAGE_SIZE
      ensures Placed(size, live)
    {
      hide Page.Valid;
      AllApart();
    }

    /** While the page counts as full exactly when it is, there is nothing to take exactly when no more fits. */
    lemma RunsOut()
      requires Valid() && isFull == (endPtr + size >= PAGE_SIZE) && endPtr < PAGE_SIZE
      ensures slabp == 0 && isFull <==> At(size, |live| + 1) >= PAGE_SIZE
    {
      hide Objects, Chain, Distinct, At;
      FreedHead();
      Counted();
      AtStep(size, bumped);
      if slabp != 0 {
        AtMonotone(size, |live| + 1, bumped);
      } else {
        AtMonotone(size, |live| + 1, bumped + 1);
      }
    }

    /** Objects are live, freed, or not yet handed out. */
    lemma Counted()
      requires Valid()
      ensures |live| + |freed| == bumped
    {
      ObjectsCount(size, bumped);
      DistinctCardinality(freed);
    }

    /** A live object lies behind the page's header and is in no free list. */
    lemma InPage(obj: nat)
      requires Valid() && obj in live
      ensures HEAD <= obj && obj + size <= endPtr && obj !in freed
    {
      ObjectsBelow(size, bumped);
      assert obj !in Elements(freed);
    }
  }

  datatype Op = Take | Give(obj: nat)

  /** The objects lie in the page, behind its header, and do not overlap. */
  ghost predicate Placed(size: nat, live: set<nat>) {
    && (forall x :: x in live ==> HEAD <= x && x + size <= PAGE_SIZE)
    && (forall x, y :: x in live && y in live && x != y ==> x + size <= y || y + size <= x)
  }

  /** What an operation does to the live objects: nothing can be taken once one more would reach the page's end. */
  ghost predicate Effect(size: nat, op: Op, live: set<nat>, live': set<nat>) {
    match op
    case Take => if At(size, |live| + 1) >= PAGE_SIZE then live' == live
                 else exists o :: o !in live && live' == live + {o}
    case Give(obj) => obj in live && live' == live - {obj}
  }

  /**
   * From a fresh page on, everything handed out lies in the page and overlaps nothing else that is live, as long as
   * nothing is given back while the page counts as full.  `trace` shows the live objects between the operations.
   */
  method Run(size: nat, ops: seq<Op>) returns (p: Page, n: nat, ghost trace: seq<set<nat>>)
    requires 0 < size && HEAD + size < PAGE_SIZE
    ensures fresh(p) && p.Valid() && p.size == size && n <= |ops|
    ensures |trace| == n + 1 && trace[0] == {} && trace[n] == p.live
    ensures forall i :: 0 <= i < n ==> Effect(size, ops[i], trace[i], trace[i + 1])
    ensures forall i :: 0 <= i <= n ==> Placed(size, trace[i])
    ensures n < |ops| ==> ops[n].Give? && (ops[n].obj !in p.live || p.isFull)
  {
    hide Page.Valid, Effect, Placed;
    p := new Page(size);
    var held: set<nat> := {};
    n, trace := 0, [p.live];
    p.InOrder();
    while n < |ops|
      invariant fresh(p) && p.Valid() && p.size == size && n <= |ops| && held == p.live
      invariant p.isFull == (p.endPtr + size >= PAGE_SIZE) && p.endPtr < PAGE_SIZE
      invariant |trace| == n + 1 && trace[0] == {} && trace[n] == p.live
      invariant forall i :: 0 <= i < n ==> Effect(size, ops[i], trace[i], trace[i + 1])
      invariant forall i :: 0 <= i <= n ==> Placed(size, trace[i])
    {
      match ops[n] {
        case Take =>
          var o := StepTake(p);
          if o.Some? {
            held := held + {o.value};
          }
        case Give(obj) =>
          if obj !in held || p.isFull {
            return;
          }
          StepGive(p, obj);
          held := held - {obj};
      }
      p.InOrder();
      n, trace := n + 1, trace + [p.live];
    }
  }

  method StepTake(p: Page) returns (obj: Option<nat>)
    requires p.Valid() && p.isFull == (p.endPtr + p.size >= PAGE_SIZE) && p.endPtr < PAGE_SIZE
    modifies p
    ensures p.Valid() && p.isFull == (p.endPtr + p.size >= PAGE_SIZE) && p.endPtr < PAGE_SIZE
    ensures p.live == old(p.live) + (if obj.Some? then {obj.value} else {})
    ensures Effect(p.size, Take, old(p.live), p.live)
  {
    hide Page.Valid;
    p.RunsOut();
    obj := p.Alloc();
  }

  method StepGive(p: Page, obj: nat)
    requires p.Valid() && obj in p.live && !p.isFull && p.endPtr + p.size < PAGE_SIZE
    modifies p
    ensures p.Valid() && !p.isFull && p.endPtr == old(p.endPtr)
    ensures p.live == old(p.live) - {obj} && Effect(p.size, Give(obj), old(p.live), p.live)
  {
    hide Page.Valid;
    var empty := p.Free(obj);
  }

  /** Filling a page, giving one object back and taking two more leads out of the page. */
  method OverrunExample() returns (p: Page, last: nat)
    ensures fresh(p) && p.Valid() && p.size == 1028
    ensures last in p.live && last + p.size > PAGE_SIZE
  {
    hide Page.Valid;
    p := new Page(1028);
    var a := p.Alloc();
    var b := p.Alloc();
    var c := p.Alloc();
    assert p.isFull && p.slabp == 0;
    var empty := p.Free(c.value);
    var d := p.Alloc();
    var e := p.Alloc();
    last := e.value;
  }
}
