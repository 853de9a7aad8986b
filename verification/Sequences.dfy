/** Sorting, bisection and concatenation over sequences, as the modelled code uses them. */
module Sequences {

  datatype Option<+T> = None | Some(value: T)

  function Min(a: int, b: int): int { if a <= b then a else b }

  function Max(a: int, b: int): int { if a >= b then a else b }

  /** One byte of a dump. */
  newtype byte = b: int | 0 <= b < 256

  // ---- stable sorting -------------------------------------------------------------

  ghost predicate TotalPreorder<T(!new)>(le: (T, T) -> bool) {
    && (forall x, y :: le(x, y) || le(y, x))
    && (forall x, y, z :: le(x, y) && le(y, z) ==> le(x, z))
  }

  ghost predicate SortedBy<T>(s: seq<T>, le: (T, T) -> bool) {
    forall i, j :: 0 <= i < j < |s| ==> le(s[i], s[j])
  }

  function Insert<T>(x: T, s: seq<T>, le: (T, T) -> bool): (r: seq<T>)
    ensures multiset(r) == multiset{x} + multiset(s)
  {
    if s == [] || le(x, s[0]) then [x] + s
    else
      assert s == [s[0]] + s[1..];
      [s[0]] + Insert(x, s[1..], le)
  }

  /** A stable sort: of two elements that are `le` both ways, the earlier one stays first. */
  function Sort<T>(s: seq<T>, le: (T, T) -> bool): (r: seq<T>)
    ensures multiset(r) == multiset(s)
  {
    if s == [] then []
    else
      assert s == [s[0]] + s[1..];
      Insert(s[0], Sort(s[1..], le), le)
  }

  lemma {:induction false} SameElements<T>(r: seq<T>, s: seq<T>)
    requires multiset(r) == multiset(s)
    ensures |r| == |s|
    ensures forall x :: x in r <==> x in s
  {
    assert |multiset(r)| == |r| && |multiset(s)| == |s|;
    forall x ensures x in r <==> x in s {
      assert x in r <==> x in multiset(r);
      assert x in s <==> x in multiset(s);
    }
  }

  lemma {:induction false} InsertSorts<T(!new)>(x: T, s: seq<T>, le: (T, T) -> bool)
    requires TotalPreorder(le) && SortedBy(s, le)
    ensures SortedBy(Insert(x, s, le), le)
  {
    if s != [] && !le(x, s[0]) {
      InsertSorts(x, s[1..], le);
      var rest := Insert(x, s[1..], le);
      SameElements(rest, [x] + s[1..]);
      forall k | 0 <= k < |rest| ensures le(s[0], rest[k]) {
        assert rest[k] in [x] + s[1..];
      }
    } else if s != [] {
      forall k | 0 <= k < |s| ensures le(x, s[k]) {
        if k > 0 { assert le(s[0], s[k]); }
      }
    }
  }

  lemma {:induction false} SortSorts<T(!new)>(s: seq<T>, le: (T, T) -> bool)
    requires TotalPreorder(le)
    ensures SortedBy(Sort(s, le), le)
    ensures |Sort(s, le)| == |s|
    ensures forall x :: x in Sort(s, le) <==> x in s
  {
    SameElements(Sort(s, le), s);
    if s != [] {
      SortSorts(s[1..], le);
      InsertSorts(s[0], Sort(s[1..], le), le);
    }
  }

  lemma {:induction false} LeastFirst<T>(x: seq<T>, y: seq<T>, le: (T, T) -> bool)
    requires x != [] && SortedBy(x, le) && SortedBy(y, le) && forall u :: u in x <==> u in y
    requires forall u, v :: u in x && v in x && le(u, v) && le(v, u) ==> u == v
    ensures y != [] && x[0] == y[0]
  {
    assert x[0] in y;
    assert y[0] in x;
    var i :| 0 <= i < |y| && y[i] == x[0];
    var j :| 0 <= j < |x| && x[j] == y[0];
    assert i == 0 || le(y[0], y[i]);
    assert j == 0 || le(x[0], x[j]);
  }

  lemma {:induction false} TailMultiset<T>(x: seq<T>)
    requires x != []
    ensures multiset(x[1..]) == multiset(x) - multiset{x[0]}
    ensures x == [x[0]] + x[1..]
    ensures forall u :: u in x[1..] ==> u in x
  {
    assert x == [x[0]] + x[1..];
  }

  /** A sort's result is the only ordered arrangement when equivalent elements are equal. */
  lemma {:induction false} SortedUnique<T>(x: seq<T>, y: seq<T>, le: (T, T) -> bool)
    requires multiset(x) == multiset(y) && SortedBy(x, le) && SortedBy(y, le)
    requires forall u, v :: u in x && v in x && le(u, v) && le(v, u) ==> u == v
    ensures x == y
  {
    SameElements(x, y);
    if x != [] {
      LeastFirst(x, y, le);
      TailMultiset(x);
      TailMultiset(y);
      SortedUnique(x[1..], y[1..], le);
    }
  }

  // ---- slices ---------------------------------------------------------------------

  lemma {:induction false} TakeNext<T>(s: seq<T>, k: nat)
    requires k < |s|
    ensures s[..k + 1] == s[..k] + [s[k]]
  {
  }

  lemma {:induction false} TakeAll<T>(s: seq<T>)
    ensures s[..|s|] == s
  {
  }

  lemma {:induction false} SplitLast<T>(s: seq<T>)
    requires s != []
    ensures s == s[..|s| - 1] + [s[|s| - 1]]
  {
  }

  /** A list that grows by `here` and then by `rest` has grown by their concatenation. */
  lemma {:induction false} Grow<T>(done: seq<T>, here: seq<T>, rest: seq<T>, mid: seq<T>, all: seq<T>)
    requires done + here == mid && mid + rest == all
    ensures done + (here + rest) == all
  {
  }

  lemma {:induction false} AppendNothing<T>(x: seq<T>)
    ensures x + [] == x
  {
  }

  lemma {:induction false} Associative<T>(x: seq<T>, y: seq<T>, z: seq<T>)
    ensures x + (y + z) == (x + y) + z
  {
  }

  lemma {:induction false} PrefixOf<T>(x: seq<T>, y: seq<T>)
    ensures (x + y)[..|x|] == x
  {
  }

  lemma {:induction false} SplitAt<T>(x: seq<T>, y: seq<T>)
    ensures (x + y)[..|x|] == x && (x + y)[|x|..] == y
  {
  }

  lemma {:induction false} SliceSplit<T>(s: seq<T>, from: nat, mid: nat, to: nat)
    requires from <= mid <= to <= |s|
    ensures s[from..to][..mid - from] == s[from..mid] && s[from..to][mid - from..] == s[mid..to]
  {
  }

  lemma {:induction false} OneMore<T>(all: seq<T>, done: seq<T>, next: T, rest: seq<T>)
    requires all == done + ([next] + rest)
    ensures |all| > |done| && done == all[..|done|] && all == (done + [next]) + rest
  {
  }

  lemma {:induction false} SliceOfSuffix<T>(s: seq<T>, from: nat, n: nat)
    requires from + n <= |s|
    ensures s[from..][..n] == s[from..from + n]
  {
  }

  /** The first `k` of some lists, joined. */
  ghost function Flat<T>(parts: seq<seq<T>>, k: nat): seq<T>
    requires k <= |parts|
  {
    if k == 0 then [] else Flat(parts, k - 1) + parts[k - 1]
  }

  lemma {:induction false} InFlat<T>(parts: seq<seq<T>>, k: nat, x: T) returns (i: nat)
    requires k <= |parts| && x in Flat(parts, k)
    ensures i < k && x in parts[i]
  {
    if x in parts[k - 1] { i := k - 1; } else { i := InFlat(parts, k - 1, x); }
  }

  lemma {:induction false} FlatHas<T>(parts: seq<seq<T>>, k: nat, i: nat, x: T)
    requires i < k <= |parts| && x in parts[i]
    ensures x in Flat(parts, k)
  {
    if i < k - 1 { FlatHas(parts, k - 1, i, x); }
  }

  // ---- places ----------------------------------------------------------------------

  ghost predicate Ascends(places: seq<nat>, k: nat)
    requires 0 < k < |places|
  {
    places[k - 1] < places[k]
  }

  /** `places` are the marked numbers below `n`, in ascending order. */
  ghost predicate Places(marks: seq<bool>, n: nat, places: seq<nat>)
    requires n <= |marks|
  {
    && (forall k :: 0 <= k < |places| ==> places[k] < n && marks[places[k]])
    && (forall k {:trigger Ascends(places, k)} :: 0 < k < |places| ==> Ascends(places, k))
    && forall i: nat :: i < n && marks[i] ==> i in places
  }

  lemma {:induction false} PlaceTaken(marks: seq<bool>, n: nat, places: seq<nat>)
    requires 0 < n <= |marks| && Places(marks, n - 1, places) && marks[n - 1]
    ensures Places(marks, n, places + [n - 1])
  {
    var next := places + [n - 1];
    forall k | 0 < k < |next| ensures Ascends(next, k) {
      if k < |places| { assert Ascends(places, k) && next[k - 1] == places[k - 1]; }
    }
    forall i: nat | i < n && marks[i] ensures i in next {
      if i < n - 1 { assert i in places; } else { assert next[|places|] == n - 1; }
    }
  }

  lemma {:induction false} PlaceSkipped(marks: seq<bool>, n: nat, places: seq<nat>)
    requires 0 < n <= |marks| && Places(marks, n - 1, places) && !marks[n - 1]
    ensures Places(marks, n, places)
  {
  }

  // ---- sums over a sequence ---------------------------------------------------------

  ghost function Sum<T>(s: seq<T>, f: T -> int): int {
    if s == [] then 0 else Sum(s[..|s| - 1], f) + f(s[|s| - 1])
  }

  lemma {:induction false} SumSnoc<T>(s: seq<T>, x: T, f: T -> int)
    ensures Sum(s + [x], f) == Sum(s, f) + f(x)
  {
    assert (s + [x])[..|s|] == s;
  }

  lemma {:induction false} SumAppend<T>(x: seq<T>, y: seq<T>, f: T -> int)
    ensures Sum(x + y, f) == Sum(x, f) + Sum(y, f)
  {
    if y == [] {
      assert x + y == x;
    } else {
      var n := |y| - 1;
      assert x + y == (x + y[..n]) + [y[n]];
      SumSnoc(x + y[..n], y[n], f);
      SumAppend(x, y[..n], f);
    }
  }

  lemma {:induction false} SumOne<T>(x: T, f: T -> int)
    ensures Sum([x], f) == f(x)
  {
    SumSnoc([], x, f);
    assert [] + [x] == [x];
  }

  lemma {:induction false} SumTwo<T>(x: T, y: T, f: T -> int)
    ensures Sum([x, y], f) == f(x) + f(y)
  {
    SumOne(x, f);
    SumSnoc([x], y, f);
    assert [x] + [y] == [x, y];
  }

  lemma {:induction false} SumSame<T>(s: seq<T>, f: T -> int, g: T -> int)
    requires forall x :: x in s ==> f(x) == g(x)
    ensures Sum(s, f) == Sum(s, g)
  {
    if s != [] {
      SumSame(s[..|s| - 1], f, g);
      assert s[|s| - 1] in s;
    }
  }

  lemma {:induction false} SumCons<T>(x: T, s: seq<T>, f: T -> int)
    ensures Sum([x] + s, f) == f(x) + Sum(s, f)
  {
    SumAppend([x], s, f);
    SumSnoc([], x, f);
    assert [] + [x] == [x];
  }

  lemma {:induction false} SumInsert<T>(x: T, s: seq<T>, le: (T, T) -> bool, f: T -> int)
    ensures Sum(Insert(x, s, le), f) == f(x) + Sum(s, f)
  {
    if s == [] || le(x, s[0]) {
      SumCons(x, s, f);
    } else {
      SumInsert(x, s[1..], le, f);
      SumCons(s[0], Insert(x, s[1..], le), f);
      SumCons(s[0], s[1..], f);
      assert s == [s[0]] + s[1..];
    }
  }

  /** A sum does not see the order a sort imposes. */
  lemma {:induction false} SumSort<T>(s: seq<T>, le: (T, T) -> bool, f: T -> int)
    ensures Sum(Sort(s, le), f) == Sum(s, f)
  {
    if s != [] {
      SumSort(s[1..], le, f);
      SumInsert(s[0], Sort(s[1..], le), le, f);
      SumCons(s[0], s[1..], f);
      assert s == [s[0]] + s[1..];
    }
  }

  lemma {:induction false} Cancel<T>(a: multiset<T>, b: multiset<T>, c: multiset<T>)
    requires a + c == b + c
    ensures a == b
  {
    assert a == (a + c) - c && b == (b + c) - c;
  }

  /** Where the last element of one arrangement stands in another, and what is left without it. */
  lemma {:induction false} FindLast<T>(x: seq<T>, y: seq<T>) returns (i: nat)
    requires x != [] && multiset(x) == multiset(y)
    ensures i < |y| && y[i] == x[|x| - 1] && y == (y[..i] + [y[i]]) + y[i + 1..]
    ensures multiset(x[..|x| - 1]) == multiset(y[..i] + y[i + 1..])
  {
    var last := x[|x| - 1];
    SameElements(x, y);
    assert last in y;
    i :| 0 <= i < |y| && y[i] == last;
    SplitLast(x);
    assert y == (y[..i] + [y[i]]) + y[i + 1..];
    assert multiset(y) == multiset(y[..i] + y[i + 1..]) + multiset{last};
    Cancel(multiset(x[..|x| - 1]), multiset(y[..i] + y[i + 1..]), multiset{last});
  }

  /** A sum depends only on what is summed, not on the order. */
  lemma {:induction false} SumPermuted<T>(x: seq<T>, y: seq<T>, f: T -> int)
    requires multiset(x) == multiset(y)
    ensures Sum(x, f) == Sum(y, f)
  {
    SameElements(x, y);
    if x != [] {
      var i := FindLast(x, y);
      SumAppend(y[..i] + [y[i]], y[i + 1..], f);
      SumSnoc(y[..i], y[i], f);
      SumAppend(y[..i], y[i + 1..], f);
      SumPermuted(x[..|x| - 1], y[..i] + y[i + 1..], f);
    }
  }

  // ---- bisection ------------------------------------------------------------------

  ghost predicate Ascending(a: seq<int>) {
    forall i, j :: 0 <= i < j < |a| ==> a[i] <= a[j]
  }

  /** The binary search of `bisect_right` between `lo` and `hi`. */
  function BisectRightIn(a: seq<int>, x: int, lo: nat, hi: nat): (r: nat)
    requires lo <= hi <= |a|
    ensures lo <= r <= hi
    ensures Ascending(a) && (forall i :: 0 <= i < lo ==> a[i] <= x)
         && (forall i :: hi <= i < |a| ==> x < a[i])
         ==> (forall i :: 0 <= i < r ==> a[i] <= x) && (forall i :: r <= i < |a| ==> x < a[i])
    decreases hi - lo
  {
    if lo == hi then lo
    else
      var mid := (lo + hi) / 2;
      if x < a[mid] then BisectRightIn(a, x, lo, mid) else BisectRightIn(a, x, mid + 1, hi)
  }

  function BisectRight(a: seq<int>, x: int): (r: nat)
    ensures r <= |a|
    ensures Ascending(a) ==>
              (forall i :: 0 <= i < r ==> a[i] <= x) && (forall i :: r <= i < |a| ==> x < a[i])
  {
    BisectRightIn(a, x, 0, |a|)
  }

  /** `bisect_left` over integers: the first position whose entry is not below `x`. */
  function BisectLeft(a: seq<int>, x: int): (r: nat)
    ensures r <= |a|
    ensures Ascending(a) ==>
              (forall i :: 0 <= i < r ==> a[i] < x) && (forall i :: r <= i < |a| ==> x <= a[i])
  {
    BisectRight(a, x - 1)
  }
}
