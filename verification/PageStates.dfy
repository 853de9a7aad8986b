/** The non-captured page states of a dump: explicit states, and UNMAPPED for every stretch inside
    the dump's span that no region covers (app/page_state_runs.py). */
module PageStates {
  import opened Sequences
  import opened LabelledRuns

  datatype State = Failed | NotResident | Unmapped

  /** A run of a dump's memory; `None` is captured. */
  type MemoryRun = Run<Option<State>>

  datatype Interval = Interval(startPage: nat, count: nat, state: Option<State>)

  datatype MemoryRegion = MemoryRegion(base: int, pageSize: nat, intervals: seq<Interval>)

  function IntervalRun(region: MemoryRegion, iv: Interval): MemoryRun {
    Run(region.base + iv.startPage * region.pageSize, iv.count * region.pageSize, iv.state)
  }

  function RunsOf(regions: seq<MemoryRegion>): seq<MemoryRun> {
    if regions == [] then []
    else
      var last := regions[|regions| - 1];
      RunsOf(regions[..|regions| - 1])
      + seq(|last.intervals|, i requires 0 <= i < |last.intervals| => IntervalRun(last, last.intervals[i]))
  }

  // ---- what the pages say -----------------------------------------------------------------------------

  /** Page `k` of the region holds the address. */
  ghost predicate PageHolds(region: MemoryRegion, k: int, a: int) {
    region.base + k * region.pageSize <= a < region.base + (k + 1) * region.pageSize
  }

  /** One of the interval's pages holds the address. */
  ghost predicate PagesHold(region: MemoryRegion, iv: Interval, a: int) {
    exists k {:trigger PageHolds(region, k, a)} ::
      iv.startPage <= k < iv.startPage + iv.count && PageHolds(region, k, a)
  }

  /** A page in this state holds the address. */
  ghost predicate Carries(regions: seq<MemoryRegion>, a: int, state: Option<State>) {
    exists region, iv {:trigger PagesHold(region, iv, a)} ::
      region in regions && iv in region.intervals && iv.state == state && PagesHold(region, iv, a)
  }

  /** No page holds the address, but some pages start at or below it and some end above it. */
  ghost predicate InHole(regions: seq<MemoryRegion>, a: int) {
    && (exists region, iv {:trigger iv in region.intervals, region in regions} ::
          region in regions && iv in region.intervals && region.base + iv.startPage * region.pageSize <= a)
    && (exists region, iv {:trigger iv in region.intervals, region in regions} ::
          region in regions && iv in region.intervals && a < region.base + (iv.startPage + iv.count) * region.pageSize)
    && forall region, iv {:trigger PagesHold(region, iv, a)} ::
         region in regions && iv in region.intervals ==> !PagesHold(region, iv, a)
  }

  /** The address is in the state: a page of that state holds it, or it is in a hole, which is unmapped. */
  ghost predicate InPageState(regions: seq<MemoryRegion>, a: int, s: State) {
    Carries(regions, a, Some(s)) || (s == Unmapped && InHole(regions, a))
  }

  /** Every interval has a page, and every page a byte. */
  ghost predicate HavePages(regions: seq<MemoryRegion>) {
    forall region, iv {:trigger iv in region.intervals, region in regions} ::
      region in regions && iv in region.intervals ==> region.pageSize > 0 && iv.count > 0
  }

  /** No address is in the pages of two intervals. */
  ghost predicate PagesApart(regions: seq<MemoryRegion>) {
    forall r, i, s, j, a {:trigger PagesHold(regions[r], regions[r].intervals[i], a),
                                   PagesHold(regions[s], regions[s].intervals[j], a)} ::
      0 <= r < |regions| && 0 <= i < |regions[r].intervals| && 0 <= s < |regions| && 0 <= j < |regions[s].intervals|
      && PagesHold(regions[r], regions[r].intervals[i], a) && PagesHold(regions[s], regions[s].intervals[j], a) ==>
        r == s && i == j
  }

  lemma {:induction false} Distributes(x: int, y: int, n: int)
    ensures (x + y) * n == x * n + y * n
  {
  }

  lemma {:induction false} ProductAtLeast(x: int, y: int, n: nat)
    requires x <= y
    ensures x * n <= y * n
  {
    if n > 0 { ProductAtLeast(x, y, n - 1); }
  }

  /** An interval's run covers the addresses of its pages. */
  lemma {:induction false} RunIsPages(region: MemoryRegion, iv: Interval, a: int)
    ensures IntervalRun(region, iv).Covers(a) <==> PagesHold(region, iv, a)
  {
    var start := region.base + iv.startPage * region.pageSize;
    Distributes(iv.startPage, iv.count, region.pageSize);
    if IntervalRun(region, iv).Covers(a) {
      PageOf(region, iv, a);
    }
    if k :| iv.startPage <= k < iv.startPage + iv.count && PageHolds(region, k, a) {
      ProductAtLeast(iv.startPage, k, region.pageSize);
      ProductAtLeast(k + 1, iv.startPage + iv.count, region.pageSize);
    }
  }

  lemma {:induction false} PageOf(region: MemoryRegion, iv: Interval, a: int)
    requires IntervalRun(region, iv).Covers(a)
    ensures PagesHold(region, iv, a)
  {
    var size, d := region.pageSize, a - (region.base + iv.startPage * region.pageSize);
    assert size > 0;
    var q := d / size;
    QuotientBelow(d, size, iv.count);
    Distributes(iv.startPage, q, size);
    Distributes(iv.startPage + q, 1, size);
    assert PageHolds(region, iv.startPage + q, a);
  }

  lemma {:induction false} QuotientBelow(d: nat, size: int, count: int)
    requires size > 0 && d < count * size
    ensures 0 <= d / size < count
    ensures (d / size) * size <= d < (d / size) * size + size
  {
    var q := d / size;
    assert d == size * q + d % size;
    if q >= count { ProductAtLeast(count, q, size); }
  }

  /** The runs of regions are those of their intervals. */
  lemma {:induction false} RunsAreIntervals(regions: seq<MemoryRegion>, run: MemoryRun)
    ensures run in RunsOf(regions)
       <==> exists region, iv :: region in regions && iv in region.intervals && run == IntervalRun(region, iv)
  {
    if regions != [] {
      var n := |regions| - 1;
      var last := regions[n];
      var own := seq(|last.intervals|, i requires 0 <= i < |last.intervals| => IntervalRun(last, last.intervals[i]));
      RunsAreIntervals(regions[..n], run);
      assert RunsOf(regions) == RunsOf(regions[..n]) + own;
      if region, iv :| region in regions && iv in region.intervals && run == IntervalRun(region, iv) {
        if region !in regions[..n] {
          var i :| 0 <= i < |last.intervals| && last.intervals[i] == iv;
          assert own[i] == run;
        }
      }
    }
  }

  lemma {:induction false} IntervalOf(regions: seq<MemoryRegion>, i: nat) returns (region: MemoryRegion, iv: Interval)
    requires i < |RunsOf(regions)|
    ensures region in regions && iv in region.intervals && RunsOf(regions)[i] == IntervalRun(region, iv)
  {
    RunsAreIntervals(regions, RunsOf(regions)[i]);
    region, iv :| region in regions && iv in region.intervals && RunsOf(regions)[i] == IntervalRun(region, iv);
  }

  lemma {:induction false} RunAt(regions: seq<MemoryRegion>, region: MemoryRegion, iv: Interval) returns (i: nat)
    requires region in regions && iv in region.intervals
    ensures i < |RunsOf(regions)| && RunsOf(regions)[i] == IntervalRun(region, iv)
  {
    RunsAreIntervals(regions, IntervalRun(region, iv));
    i :| i < |RunsOf(regions)| && RunsOf(regions)[i] == IntervalRun(region, iv);
  }

  /** Some run puts the state on the address if and only if a page in that state holds it. */
  lemma {:induction false} RunsCarry(regions: seq<MemoryRegion>, a: int, state: Option<State>)
    ensures Holds(RunsOf(regions), a, state) <==> Carries(regions, a, state)
  {
    var runs := RunsOf(regions);
    if i: nat :| i < |runs| && runs[i].Puts(a, Some(state)) {
      var region, iv := IntervalOf(regions, i);
      RunIsPages(region, iv, a);
    }
    if region, iv :| region in regions && iv in region.intervals && iv.state == state && PagesHold(region, iv, a) {
      RunIsPages(region, iv, a);
      var i := RunAt(regions, region, iv);
      assert runs[i].Puts(a, Some(state));
    }
  }

  lemma {:induction false} UncoveredIsHole(regions: seq<MemoryRegion>, a: int)
    ensures Uncovered(RunsOf(regions), a) <==> InHole(regions, a)
  {
    if Uncovered(RunsOf(regions), a) { UncoveredInHole(regions, a); }
    if InHole(regions, a) { HoleUncovered(regions, a); }
  }

  lemma {:induction false} UncoveredInHole(regions: seq<MemoryRegion>, a: int)
    requires Uncovered(RunsOf(regions), a)
    ensures InHole(regions, a)
  {
    var runs := RunsOf(regions);
    var i: nat :| i < |runs| && runs[i].start <= a;
    var j: nat :| j < |runs| && a < runs[j].End();
    var below, first := IntervalOf(regions, i);
    var above, last := IntervalOf(regions, j);
    Distributes(last.startPage, last.count, above.pageSize);
    forall region, iv | region in regions && iv in region.intervals ensures !PagesHold(region, iv, a) {
      var k := RunAt(regions, region, iv);
      RunIsPages(region, iv, a);
    }
  }

  lemma {:induction false} HoleUncovered(regions: seq<MemoryRegion>, a: int)
    requires InHole(regions, a)
    ensures Uncovered(RunsOf(regions), a)
  {
    var runs := RunsOf(regions);
    var below, first :| below in regions && first in below.intervals
                        && below.base + first.startPage * below.pageSize <= a;
    var above, last :| above in regions && last in above.intervals
                       && a < above.base + (last.startPage + last.count) * above.pageSize;
    var i := RunAt(regions, below, first);
    var j := RunAt(regions, above, last);
    Distributes(last.startPage, last.count, above.pageSize);
    assert runs[i].start <= a < runs[j].End();
    forall k: nat | k < |runs| ensures !runs[k].Covers(a) {
      var region, iv := IntervalOf(regions, k);
      RunIsPages(region, iv, a);
    }
  }

  lemma {:induction false} RunsHaveLength(regions: seq<MemoryRegion>)
    requires HavePages(regions)
    ensures Positive(RunsOf(regions))
  {
    forall i: nat | i < |RunsOf(regions)| ensures RunsOf(regions)[i].len > 0 {
      var region, iv := IntervalOf(regions, i);
      ProductAtLeast(1, iv.count, region.pageSize);
    }
  }

  /** The runs of one region's intervals, none of whose pages share an address. */
  lemma {:induction false} IntervalsOnce(region: MemoryRegion, own: seq<MemoryRun>, a: int)
    requires |own| == |region.intervals|
    requires forall i :: 0 <= i < |own| ==> own[i] == IntervalRun(region, region.intervals[i])
    requires forall i, j :: 0 <= i < j < |own| && PagesHold(region, region.intervals[i], a) ==>
               !PagesHold(region, region.intervals[j], a)
    ensures Count(own, a, None) <= 1
  {
    forall i | 0 <= i < |own| ensures own[i].Covers(a) <==> PagesHold(region, region.intervals[i], a) {
      RunIsPages(region, region.intervals[i], a);
    }
    CountOnce(own, a);
  }

  lemma {:induction false} FewerApart(regions: seq<MemoryRegion>, n: nat)
    requires PagesApart(regions) && n <= |regions|
    ensures PagesApart(regions[..n])
  {
    var fewer := regions[..n];
    forall r, i, s, j, a
      | 0 <= r < n && 0 <= i < |fewer[r].intervals| && 0 <= s < n && 0 <= j < |fewer[s].intervals|
        && PagesHold(fewer[r], fewer[r].intervals[i], a) && PagesHold(fewer[s], fewer[s].intervals[j], a)
      ensures r == s && i == j
    {
      assert fewer[r] == regions[r] && fewer[s] == regions[s];
    }
  }

  lemma {:induction false} RunsOnce(regions: seq<MemoryRegion>, a: int)
    requires PagesApart(regions)
    ensures Count(RunsOf(regions), a, None) <= 1
  {
    if regions != [] {
      var n := |regions| - 1;
      var last, init := regions[n], RunsOf(regions[..n]);
      var own := seq(|last.intervals|, i requires 0 <= i < |last.intervals| => IntervalRun(last, last.intervals[i]));
      FewerApart(regions, n);
      RunsOnce(regions[..n], a);
      IntervalsOnce(last, own, a);
      SumAppend(init, own, Hits(a, None));
      CountNonNegative(init, a, None);
      CountNonNegative(own, a, None);
      if Count(init, a, None) > 0 { NotBoth(regions, own, a); }
    }
  }

  lemma {:induction false} NotBoth(regions: seq<MemoryRegion>, own: seq<MemoryRun>, a: int)
    requires PagesApart(regions) && regions != []
    requires var last := regions[|regions| - 1];
             && |own| == |last.intervals|
             && forall i :: 0 <= i < |own| ==> own[i] == IntervalRun(last, last.intervals[i])
    requires Count(RunsOf(regions[..|regions| - 1]), a, None) > 0
    ensures Count(own, a, None) == 0
  {
    var n := |regions| - 1;
    var k := CountIsCovered(RunsOf(regions[..n]), a);
    var region, iv := IntervalOf(regions[..n], k);
    RunIsPages(region, iv, a);
    var r: nat :| r < n && regions[r] == region;
    var i: nat :| i < |region.intervals| && region.intervals[i] == iv;
    assert PagesHold(regions[r], regions[r].intervals[i], a);
    forall j | 0 <= j < |own| ensures !own[j].Covers(a) { RunIsPages(regions[n], regions[n].intervals[j], a); }
    NoneCovers(own, a);
  }

  lemma {:induction false} RunsApart(regions: seq<MemoryRegion>)
    requires PagesApart(regions)
    ensures Disjoint(RunsOf(regions))
  {
    forall a ensures Count(RunsOf(regions), a, None) <= 1 { RunsOnce(regions, a); }
  }

  // ---- what the table denotes -----------------------------------------------------------------------

  ghost predicate Lengths(runs: seq<MemoryRun>) {
    forall i :: 0 <= i < |runs| ==> runs[i].len >= 0
  }

  /** The furthest end of any run. */
  ghost function Furthest(runs: seq<MemoryRun>): int
    requires runs != []
  {
    var n := |runs| - 1;
    if n == 0 then runs[0].End() else Max(Furthest(runs[..n]), runs[n].End())
  }

  /** Inside the span of the runs, but in none of them. */
  ghost predicate Uncovered(runs: seq<MemoryRun>, a: int) {
    && (exists i :: 0 <= i < |runs| && runs[i].start <= a)
    && (exists i :: 0 <= i < |runs| && a < runs[i].End())
    && forall i :: 0 <= i < |runs| ==> !runs[i].Covers(a)
  }

  /** The runs that are not captured, with their states. */
  ghost function Explicit(runs: seq<MemoryRun>): seq<Run<State>> {
    if runs == [] then []
    else
      var r := runs[|runs| - 1];
      Explicit(runs[..|runs| - 1]) + if r.tag.None? then [] else [Run(r.start, r.len, r.tag.value)]
  }

  lemma {:induction false} ExplicitCounts(runs: seq<MemoryRun>, a: int, s: State)
    ensures Count(Explicit(runs), a, Some(s)) == Count(runs, a, Some(Some(s)))
    ensures 0 <= Count(Explicit(runs), a, None) <= Count(runs, a, None)
  {
    if runs != [] {
      var init, r := runs[..|runs| - 1], runs[|runs| - 1];
      ExplicitCounts(init, a, s);
      OneMoreExplicit(Explicit(init), r, a, Some(s));
      OneMoreExplicit(Explicit(init), r, a, None);
    }
  }

  lemma {:induction false} OneMoreExplicit(done: seq<Run<State>>, r: MemoryRun, a: int, l: Option<State>)
    ensures var here := if r.tag.None? then [] else [Run(r.start, r.len, r.tag.value)];
            Count(done + here, a, l) - Count(done, a, l)
            == if r.tag.Some? && r.Covers(a) && (l.None? || r.tag == l) then 1 else 0
  {
    if r.tag.Some? {
      SumSnoc(done, Run(r.start, r.len, r.tag.value), Hits(a, l));
    } else {
      AppendNothing(done);
    }
  }

  /** The gaps are the uncovered stretches, each address of them once. */
  ghost predicate GapsOf(gaps: seq<Run<State>>, runs: seq<MemoryRun>) {
    && Positive(gaps)
    && (forall i :: 0 <= i < |gaps| ==> gaps[i].tag == Unmapped)
    && forall a :: Count(gaps, a, None) == if Uncovered(runs, a) then 1 else 0
  }

  /** The table is the runs' own states and the gaps, in ascending order of start. */
  ghost predicate TableOf(table: seq<Run<State>>, runs: seq<MemoryRun>, gaps: seq<Run<State>>) {
    SortedBy(table, StartLe) && multiset(table) == multiset(Explicit(runs)) + multiset(gaps)
  }

  /** What building a table is for: the explicit states and the uncovered stretches of the runs,
      the maximal stretches when no run is empty. */
  ghost predicate IsStateTable(table: seq<Run<State>>, runs: seq<MemoryRun>) {
    exists gaps :: TableOf(table, runs, gaps) && GapsOf(gaps, runs) && (Positive(runs) ==> Canonical(gaps))
  }

  /** Every address carries each explicit state as often as runs put it there, and UNMAPPED once
      more exactly where it is uncovered. */
  lemma {:induction false} TableStates(table: seq<Run<State>>, runs: seq<MemoryRun>, a: int, s: State)
    requires IsStateTable(table, runs)
    ensures Count(table, a, Some(s))
         == Count(runs, a, Some(Some(s))) + if s == Unmapped && Uncovered(runs, a) then 1 else 0
  {
    var gaps :| TableOf(table, runs, gaps) && GapsOf(gaps, runs);
    SumPermuted(table, Explicit(runs) + gaps, Hits(a, Some(s)));
    SumAppend(Explicit(runs), gaps, Hits(a, Some(s)));
    ExplicitCounts(runs, a, s);
    OneTag(gaps, a, s);
  }

  lemma {:induction false} OneTag(gaps: seq<Run<State>>, a: int, s: State)
    requires forall i :: 0 <= i < |gaps| ==> gaps[i].tag == Unmapped
    ensures Count(gaps, a, Some(s)) == if s == Unmapped then Count(gaps, a, None) else 0
  {
    if gaps != [] { OneTag(gaps[..|gaps| - 1], a, s); }
  }

  /** The table of disjoint runs is ordered: every address has at most one state, and none exactly
      when it is captured or outside the span. */
  lemma {:induction false} DisjointTable(table: seq<Run<State>>, runs: seq<MemoryRun>)
    requires IsStateTable(table, runs) && Positive(runs) && Disjoint(runs)
    ensures Ordered(table)
    ensures forall a, s :: Holds(table, a, s) <==> Holds(runs, a, Some(s)) || (s == Unmapped && Uncovered(runs, a))
  {
    var gaps :| TableOf(table, runs, gaps) && GapsOf(gaps, runs);
    forall a ensures Count(table, a, None) <= 1 {
      SumPermuted(table, Explicit(runs) + gaps, Hits(a, None));
      SumAppend(Explicit(runs), gaps, Hits(a, None));
      ExplicitCounts(runs, a, Failed);
      if Uncovered(runs, a) { NoneCovers(runs, a); }
    }
    ExplicitPositive(runs);
    SameElements(table, Explicit(runs) + gaps);
    forall i | 0 <= i < |table| ensures table[i].len > 0 { assert table[i] in Explicit(runs) + gaps; }
    OrderedFromDisjoint(table);
    forall a, s ensures Holds(table, a, s) <==> Holds(runs, a, Some(s)) || (s == Unmapped && Uncovered(runs, a)) {
      TableStates(table, runs, a, s);
      HoldsIsPositiveCount(table, a, s);
      HoldsIsPositiveCount(runs, a, Some(s));
    }
  }

  lemma {:induction false} NoneCovers(runs: seq<MemoryRun>, a: int)
    requires forall i :: 0 <= i < |runs| ==> !runs[i].Covers(a)
    ensures Count(runs, a, None) == 0
  {
    if runs != [] { NoneCovers(runs[..|runs| - 1], a); }
  }

  lemma {:induction false} ExplicitPositive(runs: seq<MemoryRun>)
    requires Positive(runs)
    ensures Positive(Explicit(runs))
  {
    if runs != [] { ExplicitPositive(runs[..|runs| - 1]); }
  }

  lemma {:induction false} ExplicitSnoc(x: seq<MemoryRun>, r: MemoryRun)
    ensures Explicit(x + [r]) == Explicit(x) + if r.tag.None? then [] else [Run(r.start, r.len, r.tag.value)]
  {
    PrefixOf(x, [r]);
  }

  lemma {:induction false} ExplicitAppend(x: seq<MemoryRun>, y: seq<MemoryRun>)
    ensures Explicit(x + y) == Explicit(x) + Explicit(y)
  {
    if y == [] {
      AppendNothing(x);
      AppendNothing(Explicit(x));
    } else {
      var n := |y| - 1;
      SplitLast(y);
      Associative(x, y[..n], [y[n]]);
      ExplicitAppend(x, y[..n]);
      ExplicitSnoc(x + y[..n], y[n]);
      ExplicitSnoc(y[..n], y[n]);
      Associative(Explicit(x), Explicit(y[..n]),
                  if y[n].tag.None? then [] else [Run(y[n].start, y[n].len, y[n].tag.value)]);
    }
  }

  lemma {:induction false} ExplicitPermuted(x: seq<MemoryRun>, y: seq<MemoryRun>)
    requires multiset(x) == multiset(y)
    ensures multiset(Explicit(x)) == multiset(Explicit(y))
  {
    SameElements(x, y);
    if x != [] {
      var i := FindLast(x, y);
      var n, low, high := |x| - 1, y[..i], y[i + 1..];
      SplitLast(x);
      ExplicitPermuted(x[..n], low + high);
      ExplicitAppend(low, high);
      ExplicitAppend(low + [y[i]], high);
      ExplicitAppend(low, [y[i]]);
      ExplicitAppend(x[..n], [x[n]]);
    }
  }

  // ---- one step of the sweep -----------------------------------------------------------------------------

  lemma {:induction false} FurthestMeans(runs: seq<MemoryRun>)
    requires runs != []
    ensures forall i :: 0 <= i < |runs| ==> runs[i].End() <= Furthest(runs)
    ensures exists i :: 0 <= i < |runs| && runs[i].End() == Furthest(runs)
  {
    var n := |runs| - 1;
    if n > 0 {
      FurthestMeans(runs[..n]);
      var i :| 0 <= i < n && runs[..n][i].End() == Furthest(runs[..n]);
      assert runs[i].End() == Furthest(runs[..n]);
      forall j | 0 <= j < n ensures runs[j].End() <= Furthest(runs[..n]) { assert runs[j] == runs[..n][j]; }
    }
    assert Furthest(runs) == runs[n].End() || (n > 0 && Furthest(runs) == Furthest(runs[..n]));
  }

  /** With one more run, in order of start, the uncovered addresses grow by those between the
      furthest end so far and the run's start. */
  lemma {:induction false} UncoveredNext(done: seq<MemoryRun>, r: MemoryRun, a: int)
    requires done != [] && Lengths(done + [r]) && SortedBy(done + [r], StartLe)
    ensures Uncovered(done + [r], a) <==> Uncovered(done, a) || Furthest(done) <= a < r.start
  {
    var next, n := done + [r], |done|;
    FurthestMeans(done);
    assert next[n] == r;
    forall i | 0 <= i < n ensures next[i] == done[i] && done[i].start <= r.start && done[i].len >= 0 {
      assert StartLe(next[i], next[n]);
    }
    assert StartLe(next[0], next[n]);
    if Uncovered(next, a) {
      if a < Furthest(done) {
        var i :| 0 <= i < |next| && next[i].start <= a;
        assert done[0].start <= next[i].start by { if i > 0 { assert StartLe(next[0], next[i]); } }
        forall j | 0 <= j < n ensures !done[j].Covers(a) { assert !next[j].Covers(a); }
      } else {
        assert !next[n].Covers(a);
      }
    }
    if Uncovered(done, a) {
      var i :| 0 <= i < n && a < done[i].End();
      assert !done[i].Covers(a);
      var j :| 0 <= j < n && done[j].start <= a;
      assert next[j].start <= a && a < next[i].End();
      assert forall m :: 0 <= m < |next| ==> !next[m].Covers(a);
    }
    if Furthest(done) <= a < r.start {
      assert next[0].start <= a && a < next[n].End();
      forall m | 0 <= m < |next| ensures !next[m].Covers(a) {
        if m < n { assert done[m].End() <= Furthest(done); }
      }
    }
  }

  /** The gaps after one more run: one for the stretch up to its start, if there is one. */
  function WithGap(gaps: seq<Run<State>>, coveredEnd: int, start: int): seq<Run<State>> {
    if start > coveredEnd then gaps + [Run(coveredEnd, start - coveredEnd, Unmapped)] else gaps
  }

  lemma {:induction false} GapsNext(done: seq<MemoryRun>, r: MemoryRun, gaps: seq<Run<State>>)
    requires done != [] && Lengths(done + [r]) && SortedBy(done + [r], StartLe)
    requires GapsOf(gaps, done)
    ensures GapsOf(WithGap(gaps, Furthest(done), r.start), done + [r])
  {
    var next := WithGap(gaps, Furthest(done), r.start);
    forall a ensures Count(next, a, None) == if Uncovered(done + [r], a) then 1 else 0 {
      UncoveredNext(done, r, a);
      if r.start > Furthest(done) {
        SumSnoc(gaps, Run(Furthest(done), r.start - Furthest(done), Unmapped), Hits(a, None));
        if Uncovered(done, a) { FurthestMeans(done); }
      }
    }
  }

  /** The state of the sweep after the runs in `done`. */
  ghost predicate Swept(table: seq<Run<State>>, gaps: seq<Run<State>>, done: seq<MemoryRun>, coveredEnd: Option<int>) {
    && (coveredEnd.None? <==> done == []) && (done != [] ==> coveredEnd.value == Furthest(done))
    && TableOf(table, done, gaps) && GapsOf(gaps, done)
    && (done == [] ==> table == [] && gaps == [])
    && (done != [] ==> UpTo(table, done[|done| - 1].start))
    && (Positive(done) ==> Canonical(gaps) && (gaps != [] ==> done != [] && gaps[|gaps| - 1].End() < Furthest(done)))
  }

  ghost predicate UpTo(table: seq<Run<State>>, high: int) {
    SortedBy(table, StartLe) && forall i :: 0 <= i < |table| ==> table[i].start <= high
  }

  lemma {:induction false} AddEntry(table: seq<Run<State>>, high: int, e: Run<State>)
    requires UpTo(table, high) && high <= e.start
    ensures UpTo(table + [e], e.start) && multiset(table + [e]) == multiset(table) + multiset{e}
  {
  }

  /** The table after a run is swept. */
  function WithRun(table: seq<Run<State>>, coveredEnd: Option<int>, r: MemoryRun): seq<Run<State>> {
    var gapped := if coveredEnd.None? then table else WithGap(table, coveredEnd.value, r.start);
    if r.tag.None? then gapped else gapped + [Run(r.start, r.len, r.tag.value)]
  }

  lemma {:induction false} TableNext(table: seq<Run<State>>, gaps: seq<Run<State>>, done: seq<MemoryRun>,
                                     coveredEnd: int, r: MemoryRun)
    requires TableOf(table, done, gaps) && UpTo(table, coveredEnd) && UpTo(table, r.start)
    ensures TableOf(WithRun(table, Some(coveredEnd), r), done + [r], WithGap(gaps, coveredEnd, r.start))
    ensures UpTo(WithRun(table, Some(coveredEnd), r), r.start)
  {
    var gapped, more := WithGap(table, coveredEnd, r.start), WithGap(gaps, coveredEnd, r.start);
    GapEntry(table, gaps, multiset(Explicit(done)), coveredEnd, r.start);
    OwnEntry(gapped, done, r, multiset(more));
  }

  lemma {:induction false} GapEntry(table: seq<Run<State>>, gaps: seq<Run<State>>, own: multiset<Run<State>>,
                                    coveredEnd: int, start: int)
    requires UpTo(table, coveredEnd) && UpTo(table, start) && multiset(table) == own + multiset(gaps)
    ensures UpTo(WithGap(table, coveredEnd, start), start)
    ensures multiset(WithGap(table, coveredEnd, start)) == own + multiset(WithGap(gaps, coveredEnd, start))
  {
    if start > coveredEnd {
      var gap := Run(coveredEnd, start - coveredEnd, Unmapped);
      AddEntry(table, coveredEnd, gap);
      assert multiset(gaps + [gap]) == multiset(gaps) + multiset{gap};
    }
  }

  lemma {:induction false} OwnEntry(gapped: seq<Run<State>>, done: seq<MemoryRun>, r: MemoryRun,
                                    gaps: multiset<Run<State>>)
    requires UpTo(gapped, r.start) && multiset(gapped) == multiset(Explicit(done)) + gaps
    ensures var next := if r.tag.None? then gapped else gapped + [Run(r.start, r.len, r.tag.value)];
            UpTo(next, r.start) && multiset(next) == multiset(Explicit(done + [r])) + gaps
  {
    assert (done + [r])[..|done|] == done;
    if r.tag.Some? {
      AddEntry(gapped, r.start, Run(r.start, r.len, r.tag.value));
      assert multiset(Explicit(done + [r])) == multiset(Explicit(done)) + multiset{Run(r.start, r.len, r.tag.value)};
    } else {
      AppendNothing(Explicit(done));
    }
  }

  lemma {:induction false} SweepNext(table: seq<Run<State>>, gaps: seq<Run<State>>, done: seq<MemoryRun>,
                                     coveredEnd: int, r: MemoryRun)
    requires done != [] && Swept(table, gaps, done, Some(coveredEnd))
    requires Lengths(done + [r]) && SortedBy(done + [r], StartLe)
    ensures Swept(WithRun(table, Some(coveredEnd), r), WithGap(gaps, coveredEnd, r.start), done + [r],
                  Some(Max(coveredEnd, r.End())))
  {
    LastStart(done, r);
    TableNext(table, gaps, done, coveredEnd, r);
    GapsNext(done, r, gaps);
    StillCanonical(gaps, done, coveredEnd, r);
    FurthestNext(done, r);
  }

  lemma {:induction false} StillCanonical(gaps: seq<Run<State>>, done: seq<MemoryRun>, coveredEnd: int, r: MemoryRun)
    requires done != [] && coveredEnd == Furthest(done)
    requires Positive(done) ==> Canonical(gaps) && (gaps != [] ==> gaps[|gaps| - 1].End() < coveredEnd)
    ensures var next := WithGap(gaps, coveredEnd, r.start);
            Positive(done + [r]) ==>
              Canonical(next) && (next != [] ==> next[|next| - 1].End() < Max(coveredEnd, r.End()))
  {
    if Positive(done + [r]) {
      FirstPositive(done, r);
      GapsApart(gaps, coveredEnd, r.start);
    }
  }

  /** In order of start, the last run so far starts no later than the next one or than the furthest end. */
  lemma {:induction false} LastStart(done: seq<MemoryRun>, r: MemoryRun)
    requires done != [] && Lengths(done + [r]) && SortedBy(done + [r], StartLe)
    ensures done[|done| - 1].start <= r.start && done[|done| - 1].start <= Furthest(done)
  {
    var next, n := done + [r], |done| - 1;
    assert next[n] == done[n] && next[n + 1] == r;
    assert StartLe(next[n], next[n + 1]) && next[n].len >= 0;
    FurthestMeans(done);
  }

  lemma {:induction false} FirstPositive(done: seq<MemoryRun>, r: MemoryRun)
    requires Positive(done + [r])
    ensures Positive(done) && r.len > 0
  {
    var next := done + [r];
    forall i | 0 <= i < |done| ensures done[i].len > 0 { assert done[i] == next[i]; }
    assert next[|done|].len > 0;
  }

  lemma {:induction false} FurthestNext(done: seq<MemoryRun>, r: MemoryRun)
    requires done != []
    ensures Furthest(done + [r]) == Max(Furthest(done), r.End())
  {
    assert (done + [r])[..|done|] == done;
  }

  lemma {:induction false} FirstRun(r: MemoryRun)
    ensures GapsOf([], [r])
    ensures Swept(WithRun([], None, r), [], [r], Some(r.End()))
  {
    assert [r][..0] == [];
    assert [r] == [] + [r];
    OwnEntry([], [], r, multiset{});
    forall a ensures !Uncovered([r], a) {
      assert [r][0] == r;
    }
  }

  lemma {:induction false} GapsApart(gaps: seq<Run<State>>, coveredEnd: int, start: int)
    requires Canonical(gaps) && (gaps != [] ==> gaps[|gaps| - 1].End() < coveredEnd)
    ensures Canonical(WithGap(gaps, coveredEnd, start))
  {
    if start > coveredEnd {
      var next := WithGap(gaps, coveredEnd, start);
      var n := |gaps|;
      forall i | 0 <= i < n ensures gaps[i].End() < coveredEnd {
        if i < n - 1 { assert gaps[i].End() <= gaps[n - 1].start; }
      }
    }
  }

  // ---- the sweep ----------------------------------------------------------------------------------------

  /** Sweeps the runs in order of start with the furthest end seen so far. The synthesised entries
      are exactly the uncovered stretches, for overlapping runs too; when no run is empty they are
      the maximal ones. */
  method BuildStateTable(runs: seq<MemoryRun>) returns (table: seq<Run<State>>)
    requires Lengths(runs)
    ensures IsStateTable(table, runs)
  {
    var ordered := Sort(runs, StartLe);
    SortedRuns(runs);
    ghost var gaps;
    table, gaps := Sweep(ordered);
    Reordered(table, ordered, runs, gaps);
  }

  /** The table of a dump's regions, each a list of page intervals: an address carries the states of
      its pages, and UNMAPPED in a hole between pages. */
  method RegionStateTable(regions: seq<MemoryRegion>) returns (table: seq<Run<State>>)
    ensures IsStateTable(table, RunsOf(regions))
    ensures forall a, s :: Holds(table, a, s) <==> InPageState(regions, a, s)
  {
    RegionLengths(regions);
    table := BuildStateTable(RunsOf(regions));
    forall a, s ensures Holds(table, a, s) <==> InPageState(regions, a, s) { TableHasPages(table, regions, a, s); }
  }

  lemma {:induction false} TableHasPages(table: seq<Run<State>>, regions: seq<MemoryRegion>, a: int, s: State)
    requires IsStateTable(table, RunsOf(regions))
    ensures Holds(table, a, s) <==> InPageState(regions, a, s)
  {
    TableStates(table, RunsOf(regions), a, s);
    HoldsIsPositiveCount(table, a, s);
    HoldsIsPositiveCount(RunsOf(regions), a, Some(s));
    RunsCarry(regions, a, Some(s));
    UncoveredIsHole(regions, a);
  }

  lemma {:induction false} RegionLengths(regions: seq<MemoryRegion>)
    ensures Lengths(RunsOf(regions))
  {
    if regions != [] { RegionLengths(regions[..|regions| - 1]); }
  }

  method Sweep(ordered: seq<MemoryRun>) returns (table: seq<Run<State>>, ghost gaps: seq<Run<State>>)
    requires InOrder(ordered)
    ensures exists end :: Swept(table, gaps, ordered, end)
  {
    table, gaps := [], [];
    var coveredEnd: Option<int> := None;
    NothingSwept();
    for k := 0 to |ordered|
      invariant Swept(table, gaps, ordered[..k], coveredEnd)
    {
      table, gaps, coveredEnd := SweepRun(table, gaps, ordered, k, coveredEnd);
    }
    TakeAll(ordered);
  }

  /** One run: a gap up to it if there is room, its own entry unless it is captured, the furthest end. */
  method SweepRun(before: seq<Run<State>>, ghost gapsBefore: seq<Run<State>>, ordered: seq<MemoryRun>, k: nat,
                  endBefore: Option<int>)
    returns (table: seq<Run<State>>, ghost gaps: seq<Run<State>>, coveredEnd: Option<int>)
    requires k < |ordered| && InOrder(ordered) && Swept(before, gapsBefore, ordered[..k], endBefore)
    ensures Swept(table, gaps, ordered[..k + 1], coveredEnd)
  {
    SweepAt(before, gapsBefore, ordered, k, endBefore);
    gaps := GapsAfter(gapsBefore, endBefore, ordered[k]);
    table := WithRun(before, endBefore, ordered[k]);
    coveredEnd := Some(EndAfter(endBefore, ordered[k]));
  }

  ghost predicate InOrder(runs: seq<MemoryRun>) { Lengths(runs) && SortedBy(runs, StartLe) }

  lemma {:induction false} NothingSwept()
    ensures Swept([], [], [], None)
  {
    assert GapsOf([], []);
  }

  /** The gaps and the furthest end after a run is swept. */
  ghost function GapsAfter(gaps: seq<Run<State>>, coveredEnd: Option<int>, r: MemoryRun): seq<Run<State>> {
    if coveredEnd.None? then [] else WithGap(gaps, coveredEnd.value, r.start)
  }

  function EndAfter(coveredEnd: Option<int>, r: MemoryRun): int {
    if coveredEnd.None? then r.End() else Max(coveredEnd.value, r.End())
  }

  lemma {:induction false} SweepAt(table: seq<Run<State>>, gaps: seq<Run<State>>, ordered: seq<MemoryRun>, k: nat,
                                   coveredEnd: Option<int>)
    requires k < |ordered| && InOrder(ordered) && Swept(table, gaps, ordered[..k], coveredEnd)
    ensures Swept(WithRun(table, coveredEnd, ordered[k]), GapsAfter(gaps, coveredEnd, ordered[k]), ordered[..k + 1],
                  Some(EndAfter(coveredEnd, ordered[k])))
  {
    TakeNext(ordered, k);
    if coveredEnd.Some? {
      SweepNext(table, gaps, ordered[..k], coveredEnd.value, ordered[k]);
    } else {
      FirstRun(ordered[k]);
      assert ordered[..1] == [ordered[0]];
    }
  }

  lemma {:induction false} SortedRuns(runs: seq<MemoryRun>)
    requires Lengths(runs)
    ensures var ordered := Sort(runs, StartLe);
            InOrder(ordered) && multiset(ordered) == multiset(runs) && (Positive(runs) ==> Positive(ordered))
  {
    var ordered := Sort(runs, StartLe);
    SortSorts(runs, StartLe);
    forall i | 0 <= i < |ordered| ensures ordered[i].len >= 0 && (Positive(runs) ==> ordered[i].len > 0) {
      assert ordered[i] in runs;
    }
  }

  lemma {:induction false} Reordered(table: seq<Run<State>>, ordered: seq<MemoryRun>, runs: seq<MemoryRun>,
                                     gaps: seq<Run<State>>)
    requires multiset(ordered) == multiset(runs) && TableOf(table, ordered, gaps) && GapsOf(gaps, ordered)
    ensures TableOf(table, runs, gaps) && GapsOf(gaps, runs)
  {
    ExplicitPermuted(ordered, runs);
    SameElements(ordered, runs);
    forall a ensures Uncovered(ordered, a) <==> Uncovered(runs, a) {
      SameCover(ordered, runs, a);
      SameCover(runs, ordered, a);
    }
  }

  lemma {:induction false} SameCover(x: seq<MemoryRun>, y: seq<MemoryRun>, a: int)
    requires forall r :: r in x <==> r in y
    ensures Uncovered(x, a) ==> Uncovered(y, a)
  {
    if Uncovered(x, a) {
      var i :| 0 <= i < |x| && x[i].start <= a;
      var j :| 0 <= j < |x| && a < x[j].End();
      assert x[i] in y && x[j] in y;
      var k :| 0 <= k < |y| && y[k] == x[i];
      var m :| 0 <= m < |y| && y[m] == x[j];
      forall n | 0 <= n < |y| ensures !y[n].Covers(a) { assert y[n] in x; }
    }
  }
}
