/** A dump's page states in window coordinates: the state table clipped to each segment, bytes the
    dump holds taken out, neighbours merged (app/page_state_runs.py). */
module PageWindow {
  import opened Sequences
  import opened LabelledRuns
  import opened PageStates
  import opened CrossDump

  type StateRun = Run<State>

  // ---- clipping one segment -------------------------------------------------------------------------

  function Starts(table: seq<StateRun>): (r: seq<int>)
    ensures |r| == |table| && forall i :: 0 <= i < |r| ==> r[i] == table[i].start
  {
    seq(|table|, i requires 0 <= i < |table| => table[i].start)
  }

  /** Where the search in the table starts. */
  function First(table: seq<StateRun>, va: int): (i: nat)
    ensures i <= |table|
  {
    Max(0, BisectRight(Starts(table), va) - 1)
  }

  /** The window index that `va` of a segment at `va0` has when the segment starts at `at`. */
  function ToWindow(r: StateRun, va0: int, length: int, at: int): Option<StateRun> {
    var lo, hi := Max(r.start, va0), Min(r.End(), va0 + length);
    if hi > lo then Some(Run(at + lo - va0, hi - lo, r.tag)) else None
  }

  /** The runs from the search's start on that overlap the segment, in window coordinates: an index
      of the segment carries the states its address has in that part of the table, others none. */
  method Clip(table: seq<StateRun>, va0: int, length: int, at: int) returns (out: seq<StateRun>)
    requires SortedBy(table, StartLe)
    ensures Positive(out)
    ensures ClippedTo(out, table[First(table, va0)..], va0, length, at)
  {
    var first := First(table, va0);
    out := [];
    for i := first to |table|
      invariant Positive(out)
      invariant ClippedTo(out, table[first..i], va0, length, at)
    {
      if table[i].start >= va0 + length {
        RestIsPast(out, table, first, i, va0, length, at);
        return;
      }
      ClipNext(out, table, first, i, va0, length, at);
      var clipped := ToWindow(table[i], va0, length, at);
      if clipped.Some? {
        out := out + [clipped.value];
      }
    }
    assert table[first..|table|] == table[first..];
  }

  ghost predicate ClippedTo(out: seq<StateRun>, done: seq<StateRun>, va0: int, length: int, at: int) {
    forall w, l :: Count(out, w, l) == if at <= w < at + length then Count(done, va0 + (w - at), l) else 0
  }

  lemma {:induction false} ClipNext(out: seq<StateRun>, table: seq<StateRun>, first: nat, i: nat, va0: int, length: int,
                                    at: int)
    requires first <= i < |table| && ClippedTo(out, table[first..i], va0, length, at)
    ensures var clipped := ToWindow(table[i], va0, length, at);
            ClippedTo(if clipped.Some? then out + [clipped.value] else out, table[first..i + 1], va0, length, at)
  {
    var clipped := ToWindow(table[i], va0, length, at);
    var next := if clipped.Some? then out + [clipped.value] else out;
    var done := table[first..i + 1];
    assert done == table[first..i] + [table[i]];
    forall w, l ensures Count(next, w, l) == if at <= w < at + length then Count(done, va0 + (w - at), l) else 0 {
      assert Count(out, w, l) == if at <= w < at + length then Count(table[first..i], va0 + (w - at), l) else 0;
      SumSnoc(table[first..i], table[i], Hits(va0 + (w - at), l));
      if clipped.Some? { SumSnoc(out, clipped.value, Hits(w, l)); }
    }
  }

  lemma {:induction false} StartsPast(rest: seq<StateRun>, a: int, l: Option<State>)
    requires forall i :: 0 <= i < |rest| ==> a < rest[i].start
    ensures Count(rest, a, l) == 0
  {
    if rest != [] { StartsPast(rest[..|rest| - 1], a, l); }
  }

  lemma {:induction false} RestIsPast(out: seq<StateRun>, table: seq<StateRun>, first: nat, i: nat, va0: int,
                                      length: int, at: int)
    requires first <= i < |table| && SortedBy(table, StartLe) && table[i].start >= va0 + length
    requires ClippedTo(out, table[first..i], va0, length, at)
    ensures ClippedTo(out, table[first..], va0, length, at)
  {
    var rest := table[i..];
    assert table[first..] == table[first..i] + rest;
    forall j | 0 <= j < |rest| ensures rest[j].start >= va0 + length {
      assert j > 0 ==> StartLe(table[i], table[i + j]);
    }
    forall w, l
      ensures Count(out, w, l) == if at <= w < at + length then Count(table[first..], va0 + (w - at), l) else 0
    {
      SumAppend(table[first..i], rest, Hits(va0 + (w - at), l));
      if at <= w < at + length { StartsPast(rest, va0 + (w - at), l); }
    }
  }

  // ---- what the search may skip ------------------------------------------------------------------------

  /** Every run before the search's start has ended by the segment's start. */
  predicate SkippedEnded(table: seq<StateRun>, va0: int) {
    forall k :: 0 <= k < First(table, va0) ==> table[k].End() <= va0
  }

  lemma {:induction false} SkippedStart(table: seq<StateRun>, va0: int)
    requires SortedBy(table, StartLe)
    ensures forall k :: 0 <= k < First(table, va0) ==> table[k].start <= va0
  {
    assert Ascending(Starts(table)) by {
      forall i, j | 0 <= i < j < |table|
        ensures table[i].start <= table[j].start
      {
        assert StartLe(table[i], table[j]);
      }
    }
    forall k | 0 <= k < First(table, va0) ensures table[k].start <= va0 {
      assert Starts(table)[k] == table[k].start;
    }
  }

  lemma {:induction false} EndedBefore(runs: seq<StateRun>, a: int, l: Option<State>)
    requires forall k :: 0 <= k < |runs| ==> runs[k].End() <= a
    ensures Count(runs, a, l) == 0
  {
    if runs != [] { EndedBefore(runs[..|runs| - 1], a, l); }
  }

  ghost predicate SeesAll(table: seq<StateRun>, va0: int) {
    forall a, l :: a >= va0 ==> Count(table[First(table, va0)..], a, l) == Count(table, a, l)
  }

  /** Clipping misses nothing exactly when every run it skips has ended: on a table with
      overlapping runs an earlier, longer one can reach into the segment unseen. */
  lemma {:induction false} SearchMissesNothing(table: seq<StateRun>, va0: int)
    requires SortedBy(table, StartLe)
    ensures SkippedEnded(table, va0) <==> SeesAll(table, va0)
  {
    if SkippedEnded(table, va0) { NothingMissed(table, va0); } else { SomethingMissed(table, va0); }
  }

  lemma {:induction false} NothingMissed(table: seq<StateRun>, va0: int)
    requires SkippedEnded(table, va0)
    ensures SeesAll(table, va0)
  {
    var skipped, rest := table[..First(table, va0)], table[First(table, va0)..];
    assert table == skipped + rest;
    forall a, l | a >= va0 ensures Count(rest, a, l) == Count(table, a, l) {
      SumAppend(skipped, rest, Hits(a, l));
      EndedBefore(skipped, a, l);
    }
  }

  lemma {:induction false} SomethingMissed(table: seq<StateRun>, va0: int)
    requires SortedBy(table, StartLe) && !SkippedEnded(table, va0)
    ensures !SeesAll(table, va0)
  {
    var skipped, rest := table[..First(table, va0)], table[First(table, va0)..];
    SkippedStart(table, va0);
    assert table == skipped + rest;
    var k :| 0 <= k < First(table, va0) && table[k].End() > va0;
    SumAppend(skipped, rest, Hits(va0, None));
    assert skipped[k] == table[k];
    CountAtLeastOne(skipped, k, va0);
    assert Count(rest, va0, None) != Count(table, va0, None);
  }

  /** On a table without overlaps nothing is missed. */
  lemma {:induction false} OrderedTableIsSearched(table: seq<StateRun>, va0: int)
    requires Ordered(table)
    ensures SortedBy(table, StartLe) && SkippedEnded(table, va0)
  {
    forall i, j | 0 <= i < j < |table| ensures StartLe(table[i], table[j]) {
      assert table[i].End() <= table[j].start;
    }
    SkippedStart(table, va0);
    assert Ascending(Starts(table));
    var first := First(table, va0);
    if first > 0 { assert Starts(table)[first] == table[first].start <= va0; }
  }

  /** Three runs of an overlapping table: address 50 failed, and the clip of `[50, 60)` is empty. */
  lemma {:induction false} OverlapIsMissed()
    ensures var table := [Run(0, 100, Failed), Run(10, 1, Failed), Run(20, 1, Failed)];
            && SortedBy(table, StartLe) && Count(table, 50, Some(Failed)) == 1
            && Count(table[First(table, 50)..], 50, Some(Failed)) == 0
  {
    var x, y, z := Run(0, 100, Failed), Run(10, 1, Failed), Run(20, 1, Failed);
    var table := [x, y, z];
    var starts := Starts(table);
    assert starts[0] == 0 && starts[1] == 10 && starts[2] == 20 && Ascending(starts);
    assert BisectRight(starts, 50) == 3;
    assert table[2..] == [z];
    CountThree(x, y, z, 50, Some(Failed));
  }

  lemma {:induction false} CountThree(x: StateRun, y: StateRun, z: StateRun, a: int, l: Option<State>)
    ensures Count([z], a, l) == Hits(a, l)(z)
    ensures Count([x, y, z], a, l) == Hits(a, l)(x) + Hits(a, l)(y) + Hits(a, l)(z)
  {
    assert [z] == [] + [z] && [x, y, z] == [] + [x] + [y] + [z];
    SumSnoc([], z, Hits(a, l));
    SumSnoc([], x, Hits(a, l));
    SumSnoc([] + [x], y, Hits(a, l));
    SumSnoc([] + [x] + [y], z, Hits(a, l));
  }

  // ---- taking out valid bytes ---------------------------------------------------------------------------

  predicate InRun(v: ValidRun, w: int) { v.0 <= w < v.0 + v.1 }

  predicate InAny(valid: seq<ValidRun>, w: int) {
    exists k :: 0 <= k < |valid| && InRun(valid[k], w)
  }

  /** What is left of a run outside `v`: the part before it and the part after it. */
  function Outside(r: StateRun, v: ValidRun): seq<StateRun> {
    var vEnd := v.0 + v.1;
    if r.End() <= v.0 || r.start >= vEnd then [r]
    else
      (if r.start < v.0 then [Run(r.start, v.0 - r.start, r.tag)] else [])
      + (if r.End() > vEnd then [Run(vEnd, r.End() - vEnd, r.tag)] else [])
  }

  lemma {:induction false} OutsideCounts(r: StateRun, v: ValidRun, w: int, l: Option<State>)
    requires v.1 >= 0 && r.len > 0
    ensures Positive(Outside(r, v))
    ensures Count(Outside(r, v), w, l) == if r.Puts(w, l) && !InRun(v, w) then 1 else 0
  {
    var vEnd := v.0 + v.1;
    var before, after := Run(r.start, v.0 - r.start, r.tag), Run(vEnd, r.End() - vEnd, r.tag);
    SumOne(r, Hits(w, l));
    SumOne(before, Hits(w, l));
    SumOne(after, Hits(w, l));
    SumTwo(before, after, Hits(w, l));
  }

  /** Takes out every index a valid run claims: the others keep their states. */
  method SubtractValid(runs: seq<StateRun>, valid: seq<ValidRun>) returns (out: seq<StateRun>)
    requires Positive(runs) && forall k :: 0 <= k < |valid| ==> valid[k].1 >= 0
    ensures Positive(out)
    ensures Left(out, runs, valid)
  {
    out := runs;
    for k := 0 to |valid|
      invariant Positive(out) && Left(out, runs, valid[..k])
    {
      var next := SubtractOne(out, valid[k]);
      LeftNext(out, runs, valid, k, next);
      out := next;
    }
    TakeAll(valid);
  }

  method SubtractOne(runs: seq<StateRun>, v: ValidRun) returns (out: seq<StateRun>)
    requires Positive(runs) && v.1 >= 0
    ensures Positive(out)
    ensures Without(out, runs, v)
  {
    out := [];
    for i := 0 to |runs|
      invariant Positive(out) && Without(out, runs[..i], v)
    {
      WithoutNext(out, runs, i, v);
      out := out + Outside(runs[i], v);
    }
    TakeAll(runs);
  }

  ghost predicate Without(out: seq<StateRun>, runs: seq<StateRun>, v: ValidRun) {
    forall w, l :: Count(out, w, l) == if InRun(v, w) then 0 else Count(runs, w, l)
  }

  ghost predicate Left(out: seq<StateRun>, runs: seq<StateRun>, valid: seq<ValidRun>) {
    forall w, l :: Count(out, w, l) == if InAny(valid, w) then 0 else Count(runs, w, l)
  }

  lemma {:induction false} WithoutNext(out: seq<StateRun>, runs: seq<StateRun>, i: nat, v: ValidRun)
    requires i < |runs| && Positive(out) && runs[i].len > 0 && v.1 >= 0 && Without(out, runs[..i], v)
    ensures Positive(out + Outside(runs[i], v)) && Without(out + Outside(runs[i], v), runs[..i + 1], v)
  {
    var more, done := out + Outside(runs[i], v), runs[..i + 1];
    TakeNext(runs, i);
    OutsideCounts(runs[i], v, 0, None);
    forall w, l ensures Count(more, w, l) == if InRun(v, w) then 0 else Count(done, w, l) {
      assert Count(out, w, l) == if InRun(v, w) then 0 else Count(runs[..i], w, l);
      SumAppend(out, Outside(runs[i], v), Hits(w, l));
      SumSnoc(runs[..i], runs[i], Hits(w, l));
      OutsideCounts(runs[i], v, w, l);
    }
  }

  lemma {:induction false} InAnyNext(valid: seq<ValidRun>, k: nat, w: int)
    requires k < |valid|
    ensures InAny(valid[..k + 1], w) <==> InAny(valid[..k], w) || InRun(valid[k], w)
  {
    TakeNext(valid, k);
    var more := valid[..k + 1];
    assert more[k] == valid[k];
    if j :| 0 <= j < k && InRun(valid[..k][j], w) { assert more[j] == valid[..k][j]; }
    if j :| 0 <= j < |more| && InRun(more[j], w) { assert j < k ==> valid[..k][j] == more[j]; }
  }

  lemma {:induction false} LeftNext(out: seq<StateRun>, runs: seq<StateRun>, valid: seq<ValidRun>, k: nat,
                                    next: seq<StateRun>)
    requires k < |valid| && Left(out, runs, valid[..k]) && Without(next, out, valid[k])
    ensures Left(next, runs, valid[..k + 1])
  {
    var done := valid[..k + 1];
    forall w, l ensures Count(next, w, l) == if InAny(done, w) then 0 else Count(runs, w, l) {
      InAnyNext(valid, k, w);
      assert Count(out, w, l) == if InAny(valid[..k], w) then 0 else Count(runs, w, l);
    }
  }

  // ---- merging -----------------------------------------------------------------------------------------

  ghost predicate NoTouching(runs: seq<StateRun>) {
    forall i :: 0 < i < |runs| ==> runs[i - 1].End() != runs[i].start || runs[i - 1].tag != runs[i].tag
  }

  ghost predicate SameStates(x: seq<StateRun>, y: seq<StateRun>) {
    forall w, l :: Count(x, w, l) == Count(y, w, l)
  }

  /** Sorts runs and joins neighbours that carry one state. No index gains or loses a state; runs
      without overlap become the one canonical list of them. */
  method MergeRuns(runs: seq<StateRun>) returns (merged: seq<StateRun>)
    requires Positive(runs)
    ensures SameStates(merged, runs) && Positive(merged) && NoTouching(merged) && SortedBy(merged, StartLe)
    ensures Disjoint(runs) ==> Canonical(merged)
  {
    var ordered := Sort(runs, StartLe);
    SortedPositive(runs);
    merged := Joined(ordered);
    forall w, l ensures Count(merged, w, l) == Count(runs, w, l) {
      SumSort(runs, StartLe, Hits(w, l));
      assert Count(merged, w, l) == Count(ordered, w, l);
    }
    if Disjoint(runs) {
      forall w ensures Count(merged, w, None) <= 1 { assert Count(runs, w, None) <= 1; }
      OrderedFromDisjoint(merged);
    }
  }

  lemma {:induction false} SortedPositive(runs: seq<StateRun>)
    requires Positive(runs)
    ensures Positive(Sort(runs, StartLe)) && SortedBy(Sort(runs, StartLe), StartLe)
  {
    SortSorts(runs, StartLe);
    forall i | 0 <= i < |Sort(runs, StartLe)| ensures Sort(runs, StartLe)[i].len > 0 {
      assert Sort(runs, StartLe)[i] in runs;
    }
  }

  /** Joins each run to the one before it when they touch and carry one state. */
  method Joined(ordered: seq<StateRun>) returns (merged: seq<StateRun>)
    requires Positive(ordered) && SortedBy(ordered, StartLe)
    ensures SameStates(merged, ordered) && Positive(merged) && NoTouching(merged) && SortedBy(merged, StartLe)
  {
    merged := [];
    for k := 0 to |ordered|
      invariant MergedTo(merged, ordered, k)
    {
      var r := ordered[k];
      MergeStep(merged, ordered, k);
      ghost var next := WithRun(merged, r);
      if merged != [] && merged[|merged| - 1].tag == r.tag && merged[|merged| - 1].End() == r.start {
        var init, last := merged[..|merged| - 1], merged[|merged| - 1];
        merged := init + [Run(last.start, last.len + r.len, last.tag)];
      } else {
        merged := merged + [r];
      }
      assert merged == next;
    }
    TakeAll(ordered);
  }

  /** The merged runs with one more, joined to the last one when they touch and carry one state. */
  ghost function WithRun(merged: seq<StateRun>, r: StateRun): seq<StateRun> {
    if merged != [] && merged[|merged| - 1].tag == r.tag && merged[|merged| - 1].End() == r.start then
      var last := merged[|merged| - 1];
      merged[..|merged| - 1] + [Run(last.start, last.len + r.len, last.tag)]
    else merged + [r]
  }

  lemma {:induction false} MergeStep(merged: seq<StateRun>, ordered: seq<StateRun>, k: nat)
    requires Positive(ordered) && SortedBy(ordered, StartLe) && k < |ordered| && MergedTo(merged, ordered, k)
    ensures MergedTo(WithRun(merged, ordered[k]), ordered, k + 1)
  {
    var r := ordered[k];
    var next := WithRun(merged, r);
    if merged != [] && merged[|merged| - 1].tag == r.tag && merged[|merged| - 1].End() == r.start {
      var init, last := merged[..|merged| - 1], merged[|merged| - 1];
      SplitLast(merged);
      MergeJoins(init, last, ordered, k);
      assert next == init + [Run(last.start, last.len + r.len, last.tag)];
    } else {
      MergeAdds(merged, ordered, k);
      assert next == merged + [r];
    }
  }

  /** `merged` says what the first `k` runs say. */
  ghost predicate MergedTo(merged: seq<StateRun>, ordered: seq<StateRun>, k: nat)
    requires k <= |ordered|
  {
    SameStates(merged, ordered[..k]) && UpToStart(merged, if k == 0 then None else Some(ordered[k - 1].start))
  }

  lemma {:induction false} NextStart(ordered: seq<StateRun>, k: nat)
    requires Positive(ordered) && SortedBy(ordered, StartLe) && k < |ordered|
    ensures ordered[k].len > 0 && ordered[..k + 1] == ordered[..k] + [ordered[k]]
    ensures k > 0 ==> ordered[k - 1].start <= ordered[k].start
  {
    TakeNext(ordered, k);
    if k > 0 { assert StartLe(ordered[k - 1], ordered[k]); }
  }

  lemma {:induction false} MergeJoins(init: seq<StateRun>, last: StateRun, ordered: seq<StateRun>, k: nat)
    requires Positive(ordered) && SortedBy(ordered, StartLe) && k < |ordered|
    requires MergedTo(init + [last], ordered, k) && last.tag == ordered[k].tag && last.End() == ordered[k].start
    ensures MergedTo(init + [Run(last.start, last.len + ordered[k].len, last.tag)], ordered, k + 1)
  {
    var r := ordered[k];
    NextStart(ordered, k);
    LastOfMerged(init, last, if k == 0 then None else Some(ordered[k - 1].start));
    JoinRun(init, last, ordered[..k], r);
    JoinedUpTo(init, last, last.len + r.len, r.start);
  }

  lemma {:induction false} LastOfMerged(init: seq<StateRun>, last: StateRun, high: Option<int>)
    requires UpToStart(init + [last], high)
    ensures last.len > 0 && high.Some? && last.start <= high.value && UpToStart(init + [last], Some(last.start))
  {
    var merged := init + [last];
    assert merged[|init|] == last;
    forall i | 0 <= i < |merged| ensures merged[i].start <= last.start {
      if i < |init| { assert StartLe(merged[i], merged[|init|]); }
    }
  }

  lemma {:induction false} MergeAdds(merged: seq<StateRun>, ordered: seq<StateRun>, k: nat)
    requires Positive(ordered) && SortedBy(ordered, StartLe) && k < |ordered| && MergedTo(merged, ordered, k)
    requires merged != [] ==>
               merged[|merged| - 1].tag != ordered[k].tag || merged[|merged| - 1].End() != ordered[k].start
    ensures MergedTo(merged + [ordered[k]], ordered, k + 1)
  {
    NextStart(ordered, k);
    NewRun(merged, ordered[..k], ordered[k]);
    AddedUpTo(merged, ordered[k], if k == 0 then None else Some(ordered[k - 1].start));
  }

  lemma {:induction false} AddedUpTo(merged: seq<StateRun>, r: StateRun, high: Option<int>)
    requires UpToStart(merged, high) && r.len > 0 && (high.Some? ==> high.value <= r.start)
    requires merged != [] ==> merged[|merged| - 1].tag != r.tag || merged[|merged| - 1].End() != r.start
    ensures UpToStart(merged + [r], Some(r.start))
  {
    var now := merged + [r];
    forall i, j | 0 <= i < j < |now| ensures StartLe(now[i], now[j]) {
      if j < |merged| { assert StartLe(merged[i], merged[j]); }
    }
  }

  /** What the merge keeps of its output: nothing starts past the last run seen. */
  ghost predicate UpToStart(merged: seq<StateRun>, high: Option<int>) {
    && Positive(merged) && NoTouching(merged) && SortedBy(merged, StartLe)
    && forall i :: 0 <= i < |merged| ==> high.Some? && merged[i].start <= high.value
  }

  lemma {:induction false} JoinRun(init: seq<StateRun>, last: StateRun, seen: seq<StateRun>, r: StateRun)
    requires SameStates(init + [last], seen) && last.len > 0 && r.len > 0 && last.tag == r.tag && last.End() == r.start
    ensures SameStates(init + [Run(last.start, last.len + r.len, last.tag)], seen + [r])
  {
    var both := Run(last.start, last.len + r.len, last.tag);
    var joined, more := init + [both], seen + [r];
    forall w, l ensures Count(joined, w, l) == Count(more, w, l) {
      assert Count(init + [last], w, l) == Count(seen, w, l);
      HitsJoin(last, r, w, l);
      SumJoin(init, last, both, seen, r, Hits(w, l));
    }
  }

  /** Two runs that touch hit an index as often as the run that joins them. */
  lemma {:induction false} HitsJoin(last: StateRun, r: StateRun, w: int, l: Option<State>)
    requires last.len > 0 && r.len > 0 && last.tag == r.tag && last.End() == r.start
    ensures Hits(w, l)(Run(last.start, last.len + r.len, last.tag)) == Hits(w, l)(last) + Hits(w, l)(r)
  {
  }

  lemma {:induction false} SumJoin(init: seq<StateRun>, last: StateRun, both: StateRun, seen: seq<StateRun>,
                                   r: StateRun, f: StateRun -> int)
    requires Sum(init + [last], f) == Sum(seen, f) && f(both) == f(last) + f(r)
    ensures Sum(init + [both], f) == Sum(seen + [r], f)
  {
    SumSnoc(init, both, f);
    SumSnoc(init, last, f);
    SumSnoc(seen, r, f);
  }

  lemma {:induction false} NewRun(merged: seq<StateRun>, seen: seq<StateRun>, r: StateRun)
    requires SameStates(merged, seen)
    ensures SameStates(merged + [r], seen + [r])
  {
    var x, y := merged + [r], seen + [r];
    forall w, l ensures Count(x, w, l) == Count(y, w, l) {
      assert Count(merged, w, l) == Count(seen, w, l);
      SumSnoc(merged, r, Hits(w, l));
      SumSnoc(seen, r, Hits(w, l));
    }
  }

  lemma {:induction false} JoinedUpTo(init: seq<StateRun>, last: StateRun, length: int, high: int)
    requires length > 0 && last.start <= high && UpToStart(init + [last], Some(last.start))
    ensures UpToStart(init + [Run(last.start, length, last.tag)], Some(high))
  {
    var was, now := init + [last], init + [Run(last.start, length, last.tag)];
    forall i | 0 <= i < |now| ensures now[i].start == was[i].start && now[i].tag == was[i].tag && now[i].len > 0 {
      assert was[i].len > 0;
    }
    forall i, j | 0 <= i < j < |now| ensures StartLe(now[i], now[j]) { assert StartLe(was[i], was[j]); }
    forall i | 0 < i < |now| ensures now[i - 1].End() != now[i].start || now[i - 1].tag != now[i].tag {
      assert was[i - 1] == now[i - 1];
    }
  }

  // ---- a dump's whole window ------------------------------------------------------------------------------

  /** A segment the dump was read for: its place in the window, and where it was read. */
  datatype SegmentRead = SegmentRead(at: int, offset: int, length: int) {
    predicate Has(w: int) { at <= w < at + length }

    function Va(span: int, w: int): int { span + offset + (w - at) }
  }

  /** How often the part of the table the search sees puts `l` on address `a`. */
  ghost function Seen(table: seq<StateRun>, va0: int, a: int, l: Option<State>): int {
    Count(table[First(table, va0)..], a, l)
  }

  lemma {:induction false} OrderedIsSeen(table: seq<StateRun>, va0: int, a: int, l: Option<State>)
    requires Ordered(table) && a >= va0
    ensures Seen(table, va0, a, l) == Count(table, a, l)
  {
    OrderedTableIsSearched(table, va0);
    NothingMissed(table, va0);
  }

  /** How often the clips of the first `n` segments put `l` on index `w`. */
  ghost function Clipped(table: seq<StateRun>, span: int, parts: seq<SegmentRead>, n: nat, w: int,
                         l: Option<State>): int
    requires n <= |parts|
  {
    if n == 0 then 0
    else
      var r := parts[n - 1];
      Clipped(table, span, parts, n - 1, w, l)
      + if r.Has(w) then Seen(table, span + r.offset, r.Va(span, w), l) else 0
  }

  ghost predicate ClipsOf(runs: seq<StateRun>, table: seq<StateRun>, span: int, parts: seq<SegmentRead>, n: nat)
    requires n <= |parts|
  {
    Positive(runs) && forall w, l :: Count(runs, w, l) == Clipped(table, span, parts, n, w, l)
  }

  ghost predicate ReadsApart(parts: seq<SegmentRead>) {
    forall i, j, w :: 0 <= i < j < |parts| && parts[i].Has(w) ==> !parts[j].Has(w)
  }

  /** Index `w` has state `s`: its segment maps it to an address in that state, and it is not valid. */
  ghost predicate HasState(table: seq<StateRun>, span: int, parts: seq<SegmentRead>, valid: seq<ValidRun>, w: int,
                           s: State) {
    !InAny(valid, w) && exists i :: 0 <= i < |parts| && parts[i].Has(w) && Holds(table, parts[i].Va(span, w), s)
  }

  ghost predicate SaysExactly(out: seq<StateRun>, table: seq<StateRun>, span: int, parts: seq<SegmentRead>,
                              valid: seq<ValidRun>) {
    forall w, s :: Holds(out, w, s) <==> HasState(table, span, parts, valid, w, s)
  }

  /** One dump's page states in window coordinates. On a table and segments without overlap an
      index has a state exactly when its address has it and no valid run claims the index, and the
      result is the one canonical list that says so. */
  method WindowPageStateRuns(table: seq<StateRun>, span: Option<int>, parts: seq<SegmentRead>, valid: seq<ValidRun>)
    returns (out: seq<StateRun>)
    requires SortedBy(table, StartLe) && forall k :: 0 <= k < |valid| ==> valid[k].1 >= 0
    ensures span.None? ==> out == []
    ensures span.Some? ==> StatesOf(out, table, span.value, parts, valid)
    ensures Positive(out) && NoTouching(out) && SortedBy(out, StartLe)
    ensures span.Some? && Ordered(table) && ReadsApart(parts) ==>
              Canonical(out) && SaysExactly(out, table, span.value, parts, valid)
  {
    if span.None? { return []; }
    var runs := ClipAll(table, span.value, parts);
    var left := SubtractValid(runs, valid);
    out := MergeRuns(left);
    LeftAreStates(runs, left, out, table, span.value, parts, valid);
    if Ordered(table) && ReadsApart(parts) {
      PointwiseStates(out, table, span.value, parts, valid);
      LeftApart(left, out, table, span.value, parts, valid);
    }
  }

  method ClipAll(table: seq<StateRun>, span: int, parts: seq<SegmentRead>) returns (runs: seq<StateRun>)
    requires SortedBy(table, StartLe)
    ensures ClipsOf(runs, table, span, parts, |parts|)
  {
    runs := [];
    for i := 0 to |parts|
      invariant ClipsOf(runs, table, span, parts, i)
    {
      var clips := Clip(table, span + parts[i].offset, parts[i].length, parts[i].at);
      MoreClips(runs, clips, table, span, parts, i);
      runs := runs + clips;
    }
  }

  ghost predicate StatesOf(out: seq<StateRun>, table: seq<StateRun>, span: int, parts: seq<SegmentRead>,
                           valid: seq<ValidRun>) {
    forall w, l :: Count(out, w, l) == if InAny(valid, w) then 0 else Clipped(table, span, parts, |parts|, w, l)
  }

  lemma {:induction false} LeftAreStates(runs: seq<StateRun>, left: seq<StateRun>, out: seq<StateRun>,
                                         table: seq<StateRun>, span: int, parts: seq<SegmentRead>, valid: seq<ValidRun>)
    requires ClipsOf(runs, table, span, parts, |parts|) && Left(left, runs, valid) && SameStates(out, left)
    ensures StatesOf(out, table, span, parts, valid)
  {
    forall w, l ensures Count(out, w, l) == if InAny(valid, w) then 0 else Clipped(table, span, parts, |parts|, w, l) {
      assert Count(out, w, l) == Count(left, w, l);
      assert Count(left, w, l) == if InAny(valid, w) then 0 else Count(runs, w, l);
      assert Count(runs, w, l) == Clipped(table, span, parts, |parts|, w, l);
    }
  }

  lemma {:induction false} LeftApart(left: seq<StateRun>, out: seq<StateRun>, table: seq<StateRun>, span: int,
                                     parts: seq<SegmentRead>, valid: seq<ValidRun>)
    requires Ordered(table) && ReadsApart(parts) && SameStates(out, left) && StatesOf(out, table, span, parts, valid)
    ensures Disjoint(left)
  {
    forall w ensures Count(left, w, None) <= 1 {
      assert Count(out, w, None) == Count(left, w, None);
      ClippedOnce(table, span, parts, |parts|, w);
    }
  }

  lemma {:induction false} MoreClips(runs: seq<StateRun>, clips: seq<StateRun>, table: seq<StateRun>, span: int,
                                     parts: seq<SegmentRead>, i: nat)
    requires i < |parts| && ClipsOf(runs, table, span, parts, i) && Positive(clips)
    requires var r := parts[i];
             ClippedTo(clips, table[First(table, span + r.offset)..], span + r.offset, r.length, r.at)
    ensures ClipsOf(runs + clips, table, span, parts, i + 1)
  {
    var more := runs + clips;
    forall w, l ensures Count(more, w, l) == Clipped(table, span, parts, i + 1, w, l) {
      assert Count(runs, w, l) == Clipped(table, span, parts, i, w, l);
      SumAppend(runs, clips, Hits(w, l));
      assert Count(clips, w, l) == Clipped(table, span, parts, i + 1, w, l) - Clipped(table, span, parts, i, w, l);
    }
  }

  lemma {:induction false} NoneClips(table: seq<StateRun>, span: int, parts: seq<SegmentRead>, n: nat, w: int,
                                     l: Option<State>)
    requires n <= |parts| && forall i :: 0 <= i < n ==> !parts[i].Has(w)
    ensures Clipped(table, span, parts, n, w, l) == 0
  {
    if n > 0 { NoneClips(table, span, parts, n - 1, w, l); }
  }

  /** With segments apart, the one that holds an index is the only one that clips it. */
  lemma {:induction false} OneClips(table: seq<StateRun>, span: int, parts: seq<SegmentRead>, n: nat, w: int,
                                    l: Option<State>, i: nat)
    requires i < n <= |parts| && ReadsApart(parts) && parts[i].Has(w)
    ensures Clipped(table, span, parts, n, w, l) == Seen(table, span + parts[i].offset, parts[i].Va(span, w), l)
  {
    if i == n - 1 {
      NoneClips(table, span, parts, n - 1, w, l);
    } else {
      assert !parts[n - 1].Has(w);
      OneClips(table, span, parts, n - 1, w, l, i);
    }
  }

  /** At most one segment clips an index; none does outside all of them. */
  lemma {:induction false} ClippedAt(table: seq<StateRun>, span: int, parts: seq<SegmentRead>, n: nat, w: int,
                                     l: Option<State>)
    requires n <= |parts| && Ordered(table) && ReadsApart(parts)
    ensures (forall i :: 0 <= i < n ==> !parts[i].Has(w)) ==> Clipped(table, span, parts, n, w, l) == 0
    ensures forall i :: 0 <= i < n && parts[i].Has(w)
              ==> Clipped(table, span, parts, n, w, l) == Count(table, parts[i].Va(span, w), l)
  {
    if forall i :: 0 <= i < n ==> !parts[i].Has(w) { NoneClips(table, span, parts, n, w, l); }
    forall i | 0 <= i < n && parts[i].Has(w)
      ensures Clipped(table, span, parts, n, w, l) == Count(table, parts[i].Va(span, w), l)
    {
      OneClips(table, span, parts, n, w, l, i);
      ClipHere(table, span, parts[i], w, l);
    }
  }

  lemma {:induction false} ClipHere(table: seq<StateRun>, span: int, r: SegmentRead, w: int, l: Option<State>)
    requires Ordered(table) && r.Has(w)
    ensures Seen(table, span + r.offset, r.Va(span, w), l) == Count(table, r.Va(span, w), l)
  {
    OrderedIsSeen(table, span + r.offset, r.Va(span, w), l);
  }

  lemma {:induction false} ClippedOnce(table: seq<StateRun>, span: int, parts: seq<SegmentRead>, n: nat, w: int)
    requires n <= |parts| && Ordered(table) && ReadsApart(parts)
    ensures Clipped(table, span, parts, n, w, None) <= 1
  {
    ClippedAt(table, span, parts, n, w, None);
    if i :| 0 <= i < n && parts[i].Has(w) { OrderedIsDisjoint(table, parts[i].Va(span, w)); }
  }

  lemma {:induction false} PointwiseStates(out: seq<StateRun>, table: seq<StateRun>, span: int, parts: seq<SegmentRead>,
                                           valid: seq<ValidRun>)
    requires Ordered(table) && ReadsApart(parts)
    requires StatesOf(out, table, span, parts, valid)
    ensures SaysExactly(out, table, span, parts, valid)
  {
    forall w, s ensures Holds(out, w, s) <==> HasState(table, span, parts, valid, w, s) {
      HoldsIsPositiveCount(out, w, s);
      ClippedAt(table, span, parts, |parts|, w, Some(s));
      if i :| 0 <= i < |parts| && parts[i].Has(w) {
        HoldsIsPositiveCount(table, parts[i].Va(span, w), s);
      }
    }
  }

  // ---- from a dump's memory to its window ------------------------------------------------------------------

  /** The memory has the address in state `s`: a run says so, or none covers it inside the span. */
  ghost predicate InState(runs: seq<MemoryRun>, a: int, s: State) {
    Holds(runs, a, Some(s)) || (s == Unmapped && Uncovered(runs, a))
  }

  /** An index has a state exactly when no valid run claims it and its segment maps it to an address that
      the memory has in that state. */
  ghost predicate ShowsMemory(out: seq<StateRun>, runs: seq<MemoryRun>, span: int, parts: seq<SegmentRead>,
                              valid: seq<ValidRun>) {
    forall w, s :: Holds(out, w, s)
      <==> !InAny(valid, w) && exists i :: 0 <= i < |parts| && parts[i].Has(w) && InState(runs, parts[i].Va(span, w), s)
  }

  lemma {:induction false} TableShowsMemory(out: seq<StateRun>, table: seq<StateRun>, runs: seq<MemoryRun>, span: int,
                                            parts: seq<SegmentRead>, valid: seq<ValidRun>)
    requires forall a, s :: Holds(table, a, s) <==> InState(runs, a, s)
    requires SaysExactly(out, table, span, parts, valid)
    ensures ShowsMemory(out, runs, span, parts, valid)
  {
    forall w, s ensures Holds(out, w, s)
      <==> !InAny(valid, w) && exists i :: 0 <= i < |parts| && parts[i].Has(w) && InState(runs, parts[i].Va(span, w), s)
    {
      assert Holds(out, w, s) <==> HasState(table, span, parts, valid, w, s);
    }
  }

  /** The page states of a window from the dump's memory runs: sweep, clip, subtract and merge together
      say of each index what the memory says of its address. */
  method MemoryPageStateRuns(runs: seq<MemoryRun>, span: Option<int>, parts: seq<SegmentRead>, valid: seq<ValidRun>)
    returns (out: seq<StateRun>)
    requires Lengths(runs) && forall k :: 0 <= k < |valid| ==> valid[k].1 >= 0
    ensures span.None? ==> out == []
    ensures span.Some? && Positive(runs) && Disjoint(runs) && ReadsApart(parts) ==>
              Canonical(out) && ShowsMemory(out, runs, span.value, parts, valid)
  {
    var table := BuildStateTable(runs);
    out := WindowPageStateRuns(table, span, parts, valid);
    if span.Some? && Positive(runs) && Disjoint(runs) && ReadsApart(parts) {
      DisjointTable(table, runs);
      TableShowsMemory(out, table, runs, span.value, parts, valid);
    }
  }

  /** An index has a state if and only if no valid run has the index, and a segment gives it an address
      that the pages have in that state. */
  ghost predicate ShowsPages(out: seq<StateRun>, regions: seq<MemoryRegion>, span: int, parts: seq<SegmentRead>,
                             valid: seq<ValidRun>) {
    forall w, s {:trigger Holds(out, w, s)} :: Holds(out, w, s)
      <==> (forall k :: 0 <= k < |valid| ==> !(valid[k].0 <= w < valid[k].0 + valid[k].1))
           && exists i :: 0 <= i < |parts| && parts[i].at <= w < parts[i].at + parts[i].length
                          && InPageState(regions, span + parts[i].offset + (w - parts[i].at), s)
  }

  lemma {:induction false} MemoryIsPages(out: seq<StateRun>, regions: seq<MemoryRegion>, span: int,
                                         parts: seq<SegmentRead>, valid: seq<ValidRun>)
    requires ShowsMemory(out, RunsOf(regions), span, parts, valid)
    ensures ShowsPages(out, regions, span, parts, valid)
  {
    forall a, s ensures InState(RunsOf(regions), a, s) <==> InPageState(regions, a, s) {
      RunsCarry(regions, a, Some(s));
      UncoveredIsHole(regions, a);
    }
  }

  /** The same for a dump's regions, each a list of page intervals: the window says of each index what
      the pages say of its address. */
  method RegionPageStateRuns(regions: seq<MemoryRegion>, span: Option<int>, parts: seq<SegmentRead>,
                             valid: seq<ValidRun>)
    returns (out: seq<StateRun>)
    requires forall k :: 0 <= k < |valid| ==> valid[k].1 >= 0
    ensures span.None? ==> out == []
    ensures span.Some? && HavePages(regions) && PagesApart(regions) && ReadsApart(parts) ==>
              Canonical(out) && ShowsPages(out, regions, span.value, parts, valid)
  {
    RegionLengths(regions);
    out := MemoryPageStateRuns(RunsOf(regions), span, parts, valid);
    if span.Some? && HavePages(regions) && PagesApart(regions) && ReadsApart(parts) {
      RunsHaveLength(regions);
      RunsApart(regions);
      MemoryIsPages(out, regions, span.value, parts, valid);
    }
  }
}
