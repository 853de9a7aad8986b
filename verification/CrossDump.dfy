/** How many distinct values the compared dumps hold at each window index
    (app/tools_consensus.py). */
module CrossDump {
  import opened Sequences

  /** A presence claim: `(start, length)` in window coordinates. */
  type ValidRun = (int, int)

  /** A run that starts before the window is moved to its start at full length. */
  predicate Claims(run: ValidRun, i: int) { Max(0, run.0) <= i < Max(0, run.0) + run.1 }

  predicate Claimed(runs: seq<ValidRun>, i: int) {
    exists k :: 0 <= k < |runs| && Claims(runs[k], i)
  }

  /** One dump's runs as a dense presence mask. */
  method DenseValid(runs: seq<ValidRun>, length: nat) returns (mask: array<bool>)
    ensures fresh(mask) && mask.Length == length
    ensures forall i :: 0 <= i < length ==> mask[i] == Claimed(runs, i)
  {
    mask := new bool[length](_ => false);
    for k := 0 to |runs|
      invariant forall i :: 0 <= i < length ==> mask[i] == Claimed(runs[..k], i)
    {
      var begin := Max(0, runs[k].0);
      var stop := Min(length, begin + runs[k].1);
      ghost var before := mask[..];
      if stop > begin {
        forall i | begin <= i < stop {
          mask[i] := true;
        }
      }
      forall i | 0 <= i < length ensures mask[i] == Claimed(runs[..k + 1], i) {
        ClaimedNext(runs, k, i);
        assert before[i] == Claimed(runs[..k], i);
      }
    }
    TakeAll(runs);
  }

  lemma {:induction false} ClaimedNext(runs: seq<ValidRun>, k: nat, i: int)
    requires k < |runs|
    ensures Claimed(runs[..k + 1], i) <==> Claimed(runs[..k], i) || Claims(runs[k], i)
  {
    var more := runs[..k + 1];
    assert more[k] == runs[k];
    if Claimed(runs[..k], i) {
      var j :| 0 <= j < k && Claims(runs[..k][j], i);
      assert Claims(more[j], i);
    }
    if Claimed(more, i) {
      var j :| 0 <= j < |more| && Claims(more[j], i);
      if j < k { assert Claims(runs[..k][j], i); }
    }
  }

  // ---- counting one column --------------------------------------------------------------------------

  /** Stands for an absent byte: above every byte value, so that sorting puts it last. */
  const SENTINEL := 256

  predicate IntLe(x: int, y: int) { x <= y }

  function Column(buffers: seq<seq<byte>>, masks: seq<seq<bool>>, i: nat): (r: seq<int>)
    requires |masks| == |buffers|
    requires forall d :: 0 <= d < |buffers| ==> i < |buffers[d]| && i < |masks[d]|
    ensures |r| == |buffers|
  {
    seq(|buffers|, d requires 0 <= d < |buffers| => if masks[d][i] then buffers[d][i] as int else SENTINEL)
  }

  function PresentCount(masks: seq<seq<bool>>, i: nat, n: nat): nat
    requires n <= |masks| && forall d :: 0 <= d < |masks| ==> i < |masks[d]|
  {
    if n == 0 then 0 else PresentCount(masks, i, n - 1) + if masks[n - 1][i] then 1 else 0
  }

  /** Rows below `present` whose value differs from the row above, among the first `n`. */
  function Changes(ordered: seq<int>, present: nat, n: nat): nat
    requires n <= |ordered|
  {
    if n <= 1 then 0
    else Changes(ordered, present, n - 1) + if n - 1 < present && ordered[n - 1] != ordered[n - 2] then 1 else 0
  }

  /** The distinct count of a column: sort it, then one for a present value and one for each
      change among the rows that hold present values. */
  function Distinct(column: seq<int>, present: nat): int {
    var ordered := Sort(column, IntLe);
    SameElements(ordered, column);
    (if present > 0 then 1 else 0) + Changes(ordered, present, |ordered|)
  }

  // ---- what the count means --------------------------------------------------------------------------

  /** The byte values of the dumps that claim index `i`. */
  ghost function PresentValues(buffers: seq<seq<byte>>, valids: seq<seq<ValidRun>>, i: nat): set<int>
    requires |valids| == |buffers| && forall d :: 0 <= d < |buffers| ==> i < |buffers[d]|
  {
    set d | 0 <= d < |buffers| && Claimed(valids[d], i) :: buffers[d][i] as int
  }

  ghost function Held(column: seq<int>): seq<int> {
    if column == [] then []
    else Held(column[..|column| - 1]) + if column[|column| - 1] < SENTINEL then [column[|column| - 1]] else []
  }

  ghost function Values(s: seq<int>): set<int> { set x | x in s }

  ghost function Sentinels(n: nat): seq<int> { seq(n, _ => SENTINEL) }

  ghost predicate Sentinelled(column: seq<int>) {
    forall d :: 0 <= d < |column| ==> column[d] <= SENTINEL
  }

  ghost function Absent(column: seq<int>): nat {
    if column == [] then 0
    else Absent(column[..|column| - 1]) + if column[|column| - 1] < SENTINEL then 0 else 1
  }

  /** The column is, in some order, its present values and a sentinel for each absent one. */
  ghost predicate Parted(column: seq<int>) {
    multiset(column) == multiset(Held(column) + Sentinels(Absent(column)))
  }

  lemma {:induction false} PartedNext(init: seq<int>, x: int)
    requires Parted(init) && x <= SENTINEL
    ensures Parted(init + [x])
  {
    var held, absent := Held(init + [x]), Absent(init + [x]);
    HeldNext(init, x);
    OneMoreHeld(Held(init), Absent(init), x, held, absent);
    assert multiset(held + Sentinels(absent)) == multiset(Held(init) + Sentinels(Absent(init))) + multiset{x};
  }

  lemma {:induction false} HeldAndSentinels(column: seq<int>)
    requires Sentinelled(column)
    ensures Parted(column)
  {
    if column != [] {
      HeldAndSentinels(column[..|column| - 1]);
      PartedNext(column[..|column| - 1], column[|column| - 1]);
      SplitLast(column);
    }
  }

  lemma {:induction false} HeldNext(init: seq<int>, x: int)
    ensures multiset(init + [x]) == multiset(init) + multiset{x}
    ensures if x < SENTINEL then Held(init + [x]) == Held(init) + [x] && Absent(init + [x]) == Absent(init)
            else Held(init + [x]) == Held(init) && Absent(init + [x]) == Absent(init) + 1
  {
    PrefixOf(init, [x]);
    AppendNothing(Held(init));
  }

  lemma {:induction false} OneMoreHeld(held: seq<int>, absent: nat, x: int, more: seq<int>, count: nat)
    requires x <= SENTINEL
    requires if x < SENTINEL then more == held + [x] && count == absent else more == held && count == absent + 1
    ensures multiset(more + Sentinels(count)) == multiset(held + Sentinels(absent)) + multiset{x}
  {
    if x == SENTINEL {
      assert Sentinels(count) == Sentinels(absent) + [SENTINEL];
      assert held + (Sentinels(absent) + [SENTINEL]) == (held + Sentinels(absent)) + [SENTINEL];
    }
  }

  lemma {:induction false} HeldMembers(column: seq<int>, x: int)
    ensures x in Held(column) <==> x in column && x < SENTINEL
  {
    if column != [] {
      HeldMembers(column[..|column| - 1], x);
      SplitLast(column);
    }
  }

  lemma {:induction false} HeldAtMost(column: seq<int>)
    ensures forall i :: 0 <= i < |Sort(Held(column), IntLe)| ==> Sort(Held(column), IntLe)[i] <= SENTINEL
  {
    var held := Sort(Held(column), IntLe);
    SortSorts(Held(column), IntLe);
    forall i | 0 <= i < |held| ensures held[i] <= SENTINEL {
      assert held[i] in held;
      HeldMembers(column, held[i]);
    }
  }

  /** A sorted column is its present values, sorted, with every absent one after them. */
  lemma {:induction false} SentinelsLast(column: seq<int>)
    requires Sentinelled(column)
    ensures Sort(column, IntLe) == Sort(Held(column), IntLe) + Sentinels(Absent(column))
  {
    var held, tail := Sort(Held(column), IntLe), Sentinels(Absent(column));
    HeldAndSentinels(column);
    SortSorts(column, IntLe);
    SortSorts(Held(column), IntLe);
    HeldAtMost(column);
    Parked(held, tail);
    assert multiset(held + tail) == multiset(Held(column) + tail);
    SortedUnique(Sort(column, IntLe), held + tail, IntLe);
  }

  lemma {:induction false} Parked(held: seq<int>, tail: seq<int>)
    requires SortedBy(held, IntLe) && (forall i :: 0 <= i < |held| ==> held[i] <= SENTINEL)
    requires forall i :: 0 <= i < |tail| ==> tail[i] == SENTINEL
    ensures SortedBy(held + tail, IntLe)
  {
  }

  lemma {:induction false} ChangesStop(ordered: seq<int>, more: seq<int>, present: nat, n: nat)
    requires n <= |ordered|
    ensures Changes(ordered + more, present, n) == Changes(ordered, present, n)
  {
    if n > 1 { ChangesStop(ordered, more, present, n - 1); }
  }

  lemma {:induction false} ChangesPast(ordered: seq<int>, present: nat, n: nat)
    requires present <= n <= |ordered|
    ensures Changes(ordered, present, n) == Changes(ordered, present, present)
  {
    if present < n { ChangesPast(ordered, present, n - 1); }
  }

  /** In an ascending list each change brings a value not seen before. */
  lemma {:induction false} ChangesCount(s: seq<int>, n: nat)
    requires SortedBy(s, IntLe) && n <= |s|
    ensures CountsChanges(s, n)
  {
    if n <= 1 {
      FirstValue(s, n);
    } else {
      ChangesCount(s, n - 1);
      NextValue(s, n);
    }
  }

  /** One for a first value and one for each change is the number of values among the first `n`. */
  ghost predicate CountsChanges(s: seq<int>, n: nat)
    requires n <= |s|
  {
    (if n > 0 then 1 else 0) + Changes(s, |s|, n) == |Values(s[..n])|
  }

  lemma {:induction false} FirstValue(s: seq<int>, n: nat)
    requires n <= 1 && n <= |s|
    ensures CountsChanges(s, n)
  {
    if n == 0 { assert Values(s[..0]) == {}; } else { assert Values(s[..1]) == {s[0]}; }
  }

  lemma {:induction false} NextValue(s: seq<int>, n: nat)
    requires SortedBy(s, IntLe) && 1 < n <= |s| && CountsChanges(s, n - 1)
    ensures CountsChanges(s, n)
  {
    NewValue(s, n - 1);
    AddValue(Values(s[..n - 1]), s[n - 1]);
  }

  lemma {:induction false} AddValue(values: set<int>, x: int)
    ensures |values + {x}| == |values| + if x in values then 0 else 1
  {
    if x in values { assert values + {x} == values; }
  }

  lemma {:induction false} NewValue(s: seq<int>, n: nat)
    requires SortedBy(s, IntLe) && 0 < n < |s|
    ensures Values(s[..n + 1]) == Values(s[..n]) + {s[n]}
    ensures s[n] in Values(s[..n]) <==> s[n] == s[n - 1]
  {
    TakeNext(s, n);
    assert s[..n][n - 1] == s[n - 1];
    if s[n] in s[..n] {
      var k :| 0 <= k < n && s[k] == s[n];
      assert k < n - 1 ==> IntLe(s[k], s[n - 1]);
      assert IntLe(s[n - 1], s[n]);
    }
  }

  /** Sorting with the sentinel and counting changes gives the number of distinct values held. */
  lemma {:induction false} DistinctCounts(column: seq<int>)
    requires Sentinelled(column)
    ensures Distinct(column, |Held(column)|) == |Values(Held(column))|
  {
    var held := Sort(Held(column), IntLe);
    SentinelsLast(column);
    SortSorts(Held(column), IntLe);
    CountOrdered(Sort(column, IntLe), held, Sentinels(Absent(column)));
    assert Values(held) == Values(Held(column));
  }

  lemma {:induction false} CountOrdered(ordered: seq<int>, held: seq<int>, absent: seq<int>)
    requires ordered == held + absent && SortedBy(held, IntLe)
    ensures (if |held| > 0 then 1 else 0) + Changes(ordered, |held|, |ordered|) == |Values(held)|
  {
    ChangesPast(ordered, |held|, |ordered|);
    ChangesStop(held, absent, |held|, |held|);
    ChangesCount(held, |held|);
    TakeAll(held);
  }

  ghost predicate MasksOf(masks: seq<seq<bool>>, valids: seq<seq<ValidRun>>, length: nat) {
    && |masks| == |valids|
    && forall d :: 0 <= d < |masks| ==> MaskOf(masks[d], valids[d], length)
  }

  ghost predicate MaskOf(mask: seq<bool>, valid: seq<ValidRun>, length: nat) {
    |mask| == length && forall i :: 0 <= i < length ==> mask[i] == Claimed(valid, i)
  }

  lemma {:induction false} PresentIsHeld(column: seq<int>, masks: seq<seq<bool>>, i: nat, n: nat)
    requires |column| == |masks| && n <= |masks| && forall d :: 0 <= d < |masks| ==> i < |masks[d]|
    requires forall d :: 0 <= d < |column| ==> (masks[d][i] <==> column[d] < SENTINEL)
    ensures PresentCount(masks, i, n) == |Held(column[..n])|
  {
    if n > 0 {
      PresentIsHeld(column, masks, i, n - 1);
      assert column[..n][..n - 1] == column[..n - 1];
    }
  }

  /** The whole column count of one index. */
  lemma {:induction false} ColumnCounts(buffers: seq<seq<byte>>, valids: seq<seq<ValidRun>>, masks: seq<seq<bool>>,
                                        length: nat, i: nat)
    requires |valids| == |buffers| && i < length && MasksOf(masks, valids, length)
    requires forall d :: 0 <= d < |buffers| ==> length <= |buffers[d]|
    ensures Distinct(Column(buffers, masks, i), PresentCount(masks, i, |masks|)) == |PresentValues(buffers, valids, i)|
  {
    var column := Column(buffers, masks, i);
    forall d | 0 <= d < |column|
      ensures masks[d][i] == Claimed(valids[d], i) && (masks[d][i] <==> column[d] < SENTINEL)
    {
      assert MaskOf(masks[d], valids[d], length);
    }
    PresentIsHeld(column, masks, i, |masks|);
    TakeAll(column);
    DistinctCounts(column);
    HeldIsPresent(buffers, valids, column, i);
  }

  lemma {:induction false} HeldIsPresent(buffers: seq<seq<byte>>, valids: seq<seq<ValidRun>>, column: seq<int>, i: nat)
    requires |valids| == |buffers| == |column| && forall d :: 0 <= d < |buffers| ==> i < |buffers[d]|
    requires forall d :: 0 <= d < |column| ==>
               column[d] == if Claimed(valids[d], i) then buffers[d][i] as int else SENTINEL
    ensures Values(Held(column)) == PresentValues(buffers, valids, i)
  {
    var values := PresentValues(buffers, valids, i);
    forall x ensures x in Values(Held(column)) <==> x in values {
      HeldMembers(column, x);
      if x in column && x < SENTINEL {
        var d :| 0 <= d < |column| && column[d] == x;
        assert Claimed(valids[d], i);
      }
      if x in values {
        var d :| 0 <= d < |buffers| && Claimed(valids[d], i) && buffers[d][i] as int == x;
        assert column[d] == x;
      }
    }
  }

  /** Per window index, the number of distinct values among the dumps present there. */
  method CrossDumpRuns(buffers: seq<seq<byte>>, valids: seq<seq<ValidRun>>, length: int) returns (variants: seq<int>)
    requires |valids| == |buffers| && forall d :: 0 <= d < |buffers| ==> length <= |buffers[d]|
    ensures |variants| == Max(0, length)
    ensures forall i :: 0 <= i < length ==> variants[i] == |PresentValues(buffers, valids, i)|
  {
    if length <= 0 { return []; }
    if |buffers| == 0 {
      return seq(length, _ => 0);
    }
    if |buffers| < 2 {
      var mask := DenseValid(valids[0], length);
      forall i | 0 <= i < length ensures |PresentValues(buffers, valids, i)| == if mask[i] then 1 else 0 {
        assert PresentValues(buffers, valids, i) == if Claimed(valids[0], i) then {buffers[0][i] as int} else {};
      }
      var present := mask[..];
      return seq(length, i requires 0 <= i < |present| => if present[i] then 1 else 0);
    }
    var masks: seq<seq<bool>> := [];
    for d := 0 to |valids|
      invariant MasksOf(masks, valids[..d], length)
    {
      var mask := DenseValid(valids[d], length);
      assert MaskOf(mask[..], valids[d], length);
      masks := masks + [mask[..]];
    }
    TakeAll(valids);
    forall i | 0 <= i < length
      ensures Distinct(Column(buffers, masks, i), PresentCount(masks, i, |masks|))
                == |PresentValues(buffers, valids, i)|
    {
      ColumnCounts(buffers, valids, masks, length, i);
    }
    variants := seq(length, i requires 0 <= i < length =>
      Distinct(Column(buffers, masks, i), PresentCount(masks, i, |masks|)));
  }

  // ---- disagreement -----------------------------------------------------------------------------------

  /** Two dumps are present at `i` and hold different bytes. */
  ghost predicate Disagree(buffers: seq<seq<byte>>, valids: seq<seq<ValidRun>>, i: nat)
    requires |valids| == |buffers| && forall d :: 0 <= d < |buffers| ==> i < |buffers[d]|
  {
    exists d, e :: 0 <= d < e < |buffers| && Claimed(valids[d], i) && Claimed(valids[e], i)
                   && buffers[d][i] != buffers[e][i]
  }

  lemma {:induction false} HasAny(s: set<int>)
    ensures |s| >= 1 <==> exists x :: x in s
  {
    if forall x :: x !in s { assert s == {}; }
  }

  lemma {:induction false} AtLeastTwo(s: set<int>)
    ensures |s| >= 2 <==> exists x, y :: x in s && y in s && x != y
    ensures |s| >= 1 <==> exists x :: x in s
  {
    HasAny(s);
    if x :| x in s {
      HasAny(s - {x});
      assert |s - {x}| == |s| - 1;
      if y :| y in s - {x} { assert x in s && y in s && x != y; }
    }
    if x, y :| x in s && y in s && x != y {
      assert {x, y} <= s;
      assert |s - {x, y}| == |s| - 2;
    }
  }

  /** Two or more values exactly where two present dumps disagree; none exactly where no dump is
      present: a byte only one dump holds is no disagreement. */
  lemma {:induction false} DiffersWhereDumpsDisagree(buffers: seq<seq<byte>>, valids: seq<seq<ValidRun>>, i: nat)
    requires |valids| == |buffers| && forall d :: 0 <= d < |buffers| ==> i < |buffers[d]|
    ensures |PresentValues(buffers, valids, i)| >= 2 <==> Disagree(buffers, valids, i)
    ensures |PresentValues(buffers, valids, i)| == 0 <==> forall d :: 0 <= d < |buffers| ==> !Claimed(valids[d], i)
  {
    var s := PresentValues(buffers, valids, i);
    AtLeastTwo(s);
    if x, y :| x in s && y in s && x != y {
      var d :| 0 <= d < |buffers| && Claimed(valids[d], i) && buffers[d][i] as int == x;
      var e :| 0 <= e < |buffers| && Claimed(valids[e], i) && buffers[e][i] as int == y;
      assert d < e || e < d;
    }
    if Disagree(buffers, valids, i) {
      var d, e :| 0 <= d < e < |buffers| && Claimed(valids[d], i) && Claimed(valids[e], i)
                  && buffers[d][i] != buffers[e][i];
      assert buffers[d][i] as int in s && buffers[e][i] as int in s;
    }
    if d :| 0 <= d < |buffers| && Claimed(valids[d], i) {
      assert buffers[d][i] as int in s;
    }
  }
}
