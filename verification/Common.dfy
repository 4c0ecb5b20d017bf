/** Fixed-width integers and small helpers shared by every module. */
module Common {

  /** The kernel's `u8`. */
  type u8 = x: int | 0 <= x < 0x100

  /** The kernel's `u32`. */
  type u32 = x: int | 0 <= x < 0x1_0000_0000

  /** `u32` addition wraps. */
  function Add32(x: u32, n: nat): u32 {
    (x + n) % 0x1_0000_0000
  }

  lemma Add32Cases(x: u32, n: u32)
    ensures Add32(x, n) == if x + n < 0x1_0000_0000 then x + n else x + n - 0x1_0000_0000
  {
  }

  lemma Add32Step(x: u32, n: nat)
    ensures Add32(Add32(x, n), 1) == Add32(x, n + 1)
  {
  }

  /** What a 32-bit computation leaves of a number. */
  function Wrap(x: int): u32 {
    x % 0x1_0000_0000
  }

  function Min(x: int, y: int): (m: int)
    ensures m == x || m == y
  {
    if x < y then x else y
  }

  datatype Option<+T> = None | Some(value: T)

  ghost predicate Distinct<T>(s: seq<T>) {
    forall i, j :: 0 <= i < j < |s| ==> s[i] != s[j]
  }

  ghost function Elements<T>(s: seq<T>): set<T> {
    set x | x in s
  }

  /** The number of elements of a repetition-free sequence is its length. */
  lemma {:induction false} DistinctCardinality<T>(s: seq<T>)
    requires Distinct(s)
    ensures |Elements(s)| == |s|
  {
    if s == [] {
      assert Elements(s) == {};
    } else {
      var rest := s[1..];
      DistinctCardinality(rest);
      assert Elements(s) == {s[0]} + Elements(rest);
      assert s[0] !in rest;
    }
  }

  lemma AppendElements<T>(s: seq<T>, x: T)
    requires Distinct(s) && x !in s
    ensures Distinct(s + [x]) && Elements(s + [x]) == Elements(s) + {x} && x !in Elements(s)
  {
    assert forall y :: y in s + [x] <==> y in s || y == x;
  }

  /** A set of naturals below `n` has at most `n` members. */
  lemma {:induction false} BoundedSet(s: set<int>, n: nat)
    requires forall x :: x in s ==> 0 <= x < n
    ensures |s| <= n
  {
    if n == 0 {
      assert forall x :: x !in s;
    } else {
      BoundedSet(s - {n - 1}, n - 1);
      assert s <= s - {n - 1} + {n - 1};
    }
  }

  /** A list without `t` (`list_del`). */
  function Without<T(==)>(q: seq<T>, t: T): (r: seq<T>)
    ensures t !in r && |r| <= |q|
    ensures (forall x :: x in r ==> x in q) && (forall x :: x in q && x != t ==> x in r)
  {
    if q == [] then []
    else if q[0] == t then Without(q[1..], t)
    else [q[0]] + Without(q[1..], t)
  }

  lemma {:induction false} WithoutAbsent<T>(q: seq<T>, t: T)
    requires t !in q
    ensures Without(q, t) == q
  {
    if q != [] {
      WithoutAbsent(q[1..], t);
    }
  }

  /** The rest of the list keeps its order. */
  lemma {:induction false} WithoutMiddle<T>(before: seq<T>, t: T, behind: seq<T>)
    requires t !in before && t !in behind
    ensures Without(before + [t] + behind, t) == before + behind
  {
    var q := before + [t] + behind;
    if before == [] {
      assert q[1..] == behind;
      WithoutAbsent(behind, t);
    } else {
      assert q[1..] == before[1..] + [t] + behind;
      WithoutMiddle(before[1..], t, behind);
    }
  }

  lemma {:induction false} WithoutLength<T>(q: seq<T>, t: T)
    requires Distinct(q) && t in q
    ensures |Without(q, t)| == |q| - 1
  {
    if q[0] == t {
      WithoutAbsent(q[1..], t);
    } else {
      WithoutLength(q[1..], t);
    }
  }

  lemma {:induction false} WithoutDistinct<T>(q: seq<T>, t: T)
    requires Distinct(q)
    ensures Distinct(Without(q, t)) && Elements(Without(q, t)) == Elements(q) - {t}
    ensures t in q ==> |Without(q, t)| == |q| - 1
  {
    if t in q {
      WithoutLength(q, t);
    }
    WithoutKeepsDistinct(q, t);
    hide Without;
    assert forall u :: u in Elements(Without(q, t)) <==> u in Elements(q) - {t};
  }

  lemma {:induction false} WithoutKeepsDistinct<T>(q: seq<T>, t: T)
    requires Distinct(q)
    ensures Distinct(Without(q, t))
  {
    if q != [] {
      var rest := q[1..];
      assert forall i :: 0 <= i < |rest| ==> rest[i] == q[i + 1] && rest[i] != q[0];
      WithoutKeepsDistinct(rest, t);
      var d := Without(rest, t);
      assert forall j :: 0 <= j < |d| ==> d[j] in rest;
    }
  }
}
