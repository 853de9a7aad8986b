/** The gaps a scan's coverage reports, against the stretches of addresses that no segment holds
    (app/scan_plan.py). */
module ScanGaps {
  import opened Sequences
  import opened LabelledRuns
  import opened ScanPlan

  /** Placed segments as runs of addresses. */
  ghost function Spans(placed: seq<(int, int)>): (r: seq<Run<()>>)
    ensures |r| == |placed| && forall i :: 0 <= i < |r| ==> r[i] == Run(placed[i].0, placed[i].1, ())
  {
    seq(|placed|, i requires 0 <= i < |placed| => Run(placed[i].0, placed[i].1, ()))
  }

  /** Segments on both sides of the address, and none that holds it. */
  ghost predicate Between(placed: seq<(int, int)>, a: int) {
    && (exists p, q :: p in placed && q in placed && p.0 <= a < q.0)
    && forall p :: p in placed ==> !(p.0 <= a < p.0 + p.1)
  }

  /** The maximal stretches between the segments that no segment holds. */
  ghost predicate UncoveredStretches(placed: seq<(int, int)>, gaps: seq<Run<()>>) {
    Canonical(gaps) && forall a :: Holds(gaps, a, ()) <==> Between(placed, a)
  }

  /** One segment ends where another starts. */
  ghost predicate SomeTouch(placed: seq<(int, int)>) {
    exists p, q :: p in placed && q in placed && p.0 + p.1 == q.0
  }

  // ---- the stretches between runs in order of start --------------------------------------------------------

  ghost function RunLength(): Run<()> -> int { (r: Run<()>) => r.len }

  /** Positive runs in order of start; they may overlap. */
  ghost predicate Rising(runs: seq<Run<()>>) {
    Positive(runs) && forall i, j :: 0 <= i < j < |runs| ==> runs[i].start <= runs[j].start
  }

  /** The furthest end of the first `n` runs. */
  ghost function Far(runs: seq<Run<()>>, n: nat): int
    requires 0 < n <= |runs|
  {
    if n == 1 then runs[0].End() else Max(Far(runs, n - 1), runs[n - 1].End())
  }

  lemma {:induction false} FarMeans(runs: seq<Run<()>>, n: nat)
    requires 0 < n <= |runs|
    ensures forall i :: 0 <= i < n ==> runs[i].End() <= Far(runs, n)
    ensures exists i :: 0 <= i < n && runs[i].End() == Far(runs, n)
  {
    if n == 1 {
      assert runs[0].End() == Far(runs, 1);
    } else {
      FarMeans(runs, n - 1);
      assert runs[n - 1].End() <= Far(runs, n);
    }
  }

  /** The stretches between the first `n` runs. */
  ghost function GapRuns(runs: seq<Run<()>>, n: nat): seq<Run<()>>
    requires n <= |runs|
  {
    if n <= 1 then [] else GapRuns(runs, n - 1) + GapAt(Far(runs, n - 1), runs[n - 1].start)
  }

  /** The stretch between two addresses, if there is one. */
  ghost function GapAt(end: int, start: int): seq<Run<()>> {
    if end < start then [Run(end, start - end, ())] else []
  }

  /** Canonical stretches that all end by `cursor`. */
  ghost predicate GapsUpTo(gaps: seq<Run<()>>, cursor: int) {
    Canonical(gaps) && forall i :: 0 <= i < |gaps| ==> gaps[i].End() <= cursor
  }

  lemma {:induction false} NextGap(gaps: seq<Run<()>>, cursor: int, end: int, start: int)
    requires GapsUpTo(gaps, cursor) && cursor <= start && cursor < end
    ensures GapsUpTo(gaps + GapAt(end, start), start)
  {
    if end >= start { AppendNothing(gaps); }
  }

  lemma {:induction false} StartBelowFar(runs: seq<Run<()>>, n: nat)
    requires Rising(runs) && 0 < n < |runs|
    ensures runs[n - 1].start < Far(runs, n) && runs[n - 1].start <= runs[n].start
  {
    assert runs[n - 1].len > 0;
  }

  lemma {:induction false} GapRunsAreMaximal(runs: seq<Run<()>>, n: nat)
    requires Rising(runs) && 0 < n <= |runs|
    ensures GapsUpTo(GapRuns(runs, n), runs[n - 1].start)
  {
    if n > 1 {
      GapRunsAreMaximal(runs, n - 1);
      StartBelowFar(runs, n - 1);
      NextGap(GapRuns(runs, n - 1), runs[n - 2].start, Far(runs, n - 1), runs[n - 1].start);
    }
  }

  /** Inside the starts of the first `n` runs, but in none of them. */
  ghost predicate InGap(runs: seq<Run<()>>, n: nat, a: int)
    requires 0 < n <= |runs|
  {
    runs[0].start <= a < runs[n - 1].start && forall i :: 0 <= i < n ==> !runs[i].Covers(a)
  }

  lemma {:induction false} HoldsGap(gaps: seq<Run<()>>, end: int, start: int, a: int)
    ensures Holds(gaps + GapAt(end, start), a, ()) <==> Holds(gaps, a, ()) || end <= a < start
  {
    if end < start {
      HoldsSnoc(gaps, Run(end, start - end, ()), a);
    } else {
      AppendNothing(gaps);
    }
  }

  lemma {:induction false} HoldsSnoc(gaps: seq<Run<()>>, g: Run<()>, a: int)
    ensures Holds(gaps + [g], a, ()) <==> Holds(gaps, a, ()) || g.Covers(a)
  {
    if Holds(gaps, a, ()) {
      var i :| 0 <= i < |gaps| && gaps[i].Puts(a, Some(()));
      assert (gaps + [g])[i].Puts(a, Some(()));
    }
    if g.Covers(a) { assert (gaps + [g])[|gaps|].Puts(a, Some(())); }
  }

  lemma {:induction false} InGapStep(runs: seq<Run<()>>, n: nat, a: int)
    requires Rising(runs) && 1 < n <= |runs|
    ensures InGap(runs, n, a) <==> InGap(runs, n - 1, a) || Far(runs, n - 1) <= a < runs[n - 1].start
  {
    FarMeans(runs, n - 1);
    assert runs[0].start < runs[0].End() <= Far(runs, n - 1);
    var i :| 0 <= i < n - 1 && runs[i].End() == Far(runs, n - 1);
    assert runs[i].start <= runs[n - 2].start <= runs[n - 1].start by { StartsRise(runs, i, n - 2); }
    if InGap(runs, n, a) { assert !runs[i].Covers(a); }
  }

  lemma {:induction false} StartsRise(runs: seq<Run<()>>, i: nat, j: nat)
    requires Rising(runs) && i <= j < |runs|
    ensures runs[i].start <= runs[j].start
    ensures j + 1 < |runs| ==> runs[j].start <= runs[j + 1].start
  {
  }

  lemma {:induction false} GapRunsMean(runs: seq<Run<()>>, n: nat, a: int)
    requires Rising(runs) && 0 < n <= |runs|
    ensures Holds(GapRuns(runs, n), a, ()) <==> InGap(runs, n, a)
  {
    if n > 1 {
      GapRunsMean(runs, n - 1, a);
      InGapStep(runs, n, a);
      HoldsGap(GapRuns(runs, n - 1), Far(runs, n - 1), runs[n - 1].start, a);
    }
  }

  // ---- how many stretches, and how long --------------------------------------------------------------------

  /** Run `i` starts past every end before it, with an uncovered address between. */
  ghost predicate StartsPast(runs: seq<Run<()>>, i: nat)
    requires 0 < i < |runs|
  {
    Far(runs, i) < runs[i].start
  }

  /** One stretch for each run that starts past every end before it. */
  lemma {:induction false} GapRunsCount(runs: seq<Run<()>>, n: nat)
    requires 0 < n <= |runs|
    ensures |GapRuns(runs, n)| <= n - 1
    ensures |GapRuns(runs, n)| == n - 1 <==> forall i :: 0 < i < n ==> StartsPast(runs, i)
  {
    if n > 1 {
      GapRunsCount(runs, n - 1);
      assert |GapAt(Far(runs, n - 1), runs[n - 1].start)| == if StartsPast(runs, n - 1) then 1 else 0;
    }
  }

  lemma {:induction false} OrderedEnds(runs: seq<Run<()>>, n: nat)
    requires Ordered(runs) && 0 < n <= |runs|
    ensures Far(runs, n) == runs[n - 1].End()
  {
    if n > 1 {
      OrderedEnds(runs, n - 1);
      assert runs[n - 2].End() <= runs[n - 1].start && runs[n - 1].len > 0;
    }
  }

  /** Every run starts past the ends before it exactly when no address is held twice and no neighbours
      touch. */
  lemma {:induction false} PastIsApart(runs: seq<Run<()>>)
    requires Rising(runs)
    ensures (forall i :: 0 < i < |runs| ==> StartsPast(runs, i))
       <==> Ordered(runs) && forall i :: 0 < i < |runs| ==> runs[i - 1].End() != runs[i].start
  {
    if forall i :: 0 < i < |runs| ==> StartsPast(runs, i) {
      forall i, j | 0 <= i < j < |runs| ensures runs[i].End() < runs[j].start {
        FarMeans(runs, j);
        assert StartsPast(runs, j);
      }
    } else if Ordered(runs) {
      var i :| 0 < i < |runs| && !StartsPast(runs, i);
      OrderedEnds(runs, i);
      assert runs[i - 1].End() <= runs[i].start;
    }
  }

  /** The bytes of the first `n` runs that the runs before them reach over. */
  ghost function HeldAgain(runs: seq<Run<()>>, n: nat): int
    requires n <= |runs|
  {
    if n <= 1 then 0
    else HeldAgain(runs, n - 1) + Max(0, Min(Far(runs, n - 1), runs[n - 1].End()) - runs[n - 1].start)
  }

  lemma {:induction false} HeldAgainNone(runs: seq<Run<()>>, n: nat)
    requires Positive(runs) && n <= |runs|
    ensures HeldAgain(runs, n) >= 0
    ensures HeldAgain(runs, n) == 0 <==> forall i :: 0 < i < n ==> Far(runs, i) <= runs[i].start
  {
    if n > 1 {
      HeldAgainNone(runs, n - 1);
      assert runs[n - 1].len > 0;
    }
  }

  lemma {:induction false} NoneAgainIsOrdered(runs: seq<Run<()>>)
    requires Rising(runs)
    ensures HeldAgain(runs, |runs|) >= 0
    ensures HeldAgain(runs, |runs|) == 0 <==> Ordered(runs)
  {
    HeldAgainNone(runs, |runs|);
    if Ordered(runs) {
      forall i | 0 < i < |runs| ensures Far(runs, i) <= runs[i].start {
        OrderedEnds(runs, i);
        assert runs[i - 1].End() <= runs[i].start;
      }
    }
    if HeldAgain(runs, |runs|) == 0 {
      forall i, j | 0 <= i < j < |runs| ensures runs[i].End() <= runs[j].start {
        FarMeans(runs, j);
        assert Far(runs, j) <= runs[j].start;
      }
    }
  }

  lemma {:induction false} GapLength(gaps: seq<Run<()>>, end: int, start: int)
    ensures Sum(gaps + GapAt(end, start), RunLength()) == Sum(gaps, RunLength()) + Max(0, start - end)
  {
    if end < start {
      SumSnoc(gaps, Run(end, start - end, ()), RunLength());
    } else {
      AppendNothing(gaps);
    }
  }

  /** The reported bytes fall short of the stretches by what is held again and by what reaches past the
      last segment's end. */
  lemma {:induction false} GapRunsBytes(placed: seq<(int, int)>, n: nat)
    requires Positive(Spans(placed)) && 0 < n <= |placed|
    ensures var runs := Spans(placed);
            Sum(GapRuns(runs, n), RunLength())
            == GapBytes(placed[..n]) + HeldAgain(runs, n) + (Far(runs, n) - runs[n - 1].End())
  {
    var runs := Spans(placed);
    if n > 1 {
      GapRunsBytes(placed, n - 1);
      assert placed[..n][..n - 1] == placed[..n - 1];
      assert runs[n - 1].len > 0;
      GapLength(GapRuns(runs, n - 1), Far(runs, n - 1), runs[n - 1].start);
    }
  }

  /** Those bytes are the stretches' exactly when no address is held twice, and fewer otherwise. */
  lemma {:induction false} GapBytesExactly(placed: seq<(int, int)>)
    requires Rising(Spans(placed)) && placed != []
    ensures GapBytes(placed) <= Sum(GapRuns(Spans(placed), |placed|), RunLength())
    ensures GapBytes(placed) == Sum(GapRuns(Spans(placed), |placed|), RunLength()) <==> Ordered(Spans(placed))
  {
    var runs, n := Spans(placed), |placed|;
    GapRunsBytes(placed, n);
    TakeAll(placed);
    NoneAgainIsOrdered(runs);
    FarMeans(runs, n);
    if Ordered(runs) { OrderedEnds(runs, n); }
  }

  // ---- sorting the placed segments -----------------------------------------------------------------------

  ghost function PairHits(a: int): ((int, int)) -> int {
    (p: (int, int)) => if p.0 <= a < p.0 + p.1 then 1 else 0
  }

  lemma {:induction false} SpansCount(placed: seq<(int, int)>, a: int)
    ensures Count(Spans(placed), a, None) == Sum(placed, PairHits(a))
  {
    if placed != [] {
      var n := |placed| - 1;
      SpansCount(placed[..n], a);
      assert Spans(placed)[..n] == Spans(placed[..n]);
    }
  }

  lemma {:induction false} SortedSpans(placed: seq<(int, int)>)
    requires Positive(Spans(placed))
    ensures Rising(Spans(Sort(placed, PairLe)))
  {
    var ordered := Sort(placed, PairLe);
    var runs := Spans(ordered);
    SortSorts(placed, PairLe);
    forall i | 0 <= i < |runs| ensures runs[i].len > 0 {
      assert ordered[i] in placed;
      var j :| 0 <= j < |placed| && placed[j] == ordered[i];
      assert Spans(placed)[j].len > 0;
    }
    forall i, j | 0 <= i < j < |runs| ensures runs[i].start <= runs[j].start { assert PairLe(ordered[i], ordered[j]); }
  }

  lemma {:induction false} SortedCount(placed: seq<(int, int)>, a: int)
    ensures Count(Spans(Sort(placed, PairLe)), a, None) == Count(Spans(placed), a, None)
  {
    SpansCount(Sort(placed, PairLe), a);
    SpansCount(placed, a);
    SumSort(placed, PairLe, PairHits(a));
  }

  /** Sorted, the segments follow one another exactly when no address is held twice. */
  lemma {:induction false} OrderedIsDisjointSpans(placed: seq<(int, int)>)
    requires Positive(Spans(placed))
    ensures Ordered(Spans(Sort(placed, PairLe))) <==> Disjoint(Spans(placed))
  {
    var runs := Spans(Sort(placed, PairLe));
    SortedSpans(placed);
    if Disjoint(Spans(placed)) {
      forall a ensures Count(runs, a, None) <= 1 {
        SortedCount(placed, a);
        assert Count(Spans(placed), a, None) <= 1;
      }
      RisingIsSorted(runs);
      OrderedFromDisjoint(runs);
    }
    if Ordered(runs) {
      forall a ensures Count(Spans(placed), a, None) <= 1 {
        SortedCount(placed, a);
        OrderedIsDisjoint(runs, a);
      }
    }
  }

  lemma {:induction false} RisingIsSorted(runs: seq<Run<()>>)
    requires Rising(runs)
    ensures SortedBy(runs, StartLe)
  {
  }

  lemma {:induction false} BetweenIsInGap(ordered: seq<(int, int)>, a: int)
    requires Rising(Spans(ordered)) && ordered != []
    ensures Between(ordered, a) <==> InGap(Spans(ordered), |ordered|, a)
  {
    NoneHolds(ordered, a);
    StartsAround(ordered, a);
  }

  lemma {:induction false} StartsAround(ordered: seq<(int, int)>, a: int)
    requires Rising(Spans(ordered)) && ordered != []
    ensures (exists p, q :: p in ordered && q in ordered && p.0 <= a < q.0)
       <==> ordered[0].0 <= a < ordered[|ordered| - 1].0
  {
    if p, q :| p in ordered && q in ordered && p.0 <= a < q.0 {
      StartIsBetween(ordered, p);
      StartIsBetween(ordered, q);
    }
  }

  lemma {:induction false} StartIsBetween(ordered: seq<(int, int)>, p: (int, int))
    requires Rising(Spans(ordered)) && p in ordered
    ensures ordered[0].0 <= p.0 <= ordered[|ordered| - 1].0
  {
    var i: nat :| i < |ordered| && ordered[i] == p;
    StartsRise(Spans(ordered), 0, i);
    StartsRise(Spans(ordered), i, |ordered| - 1);
  }

  lemma {:induction false} NoneHolds(ordered: seq<(int, int)>, a: int)
    ensures (forall p :: p in ordered ==> !(p.0 <= a < p.0 + p.1))
       <==> forall i :: 0 <= i < |ordered| ==> !Spans(ordered)[i].Covers(a)
  {
    var runs := Spans(ordered);
    if forall i :: 0 <= i < |ordered| ==> !runs[i].Covers(a) {
      forall p | p in ordered ensures !(p.0 <= a < p.0 + p.1) {
        var i :| 0 <= i < |ordered| && ordered[i] == p;
        assert !runs[i].Covers(a);
      }
    }
  }

  lemma {:induction false} TouchersAreNeighbours(runs: seq<Run<()>>, i: nat, j: nat)
    requires Ordered(runs) && i < |runs| && j < |runs| && runs[i].End() == runs[j].start
    ensures j == i + 1
  {
    assert runs[i].len > 0 && runs[j].len > 0;
    if i + 1 < |runs| { assert runs[i].End() <= runs[i + 1].start < runs[i + 1].End(); }
  }

  lemma {:induction false} TouchIsNeighbours(ordered: seq<(int, int)>)
    requires Ordered(Spans(ordered))
    ensures var runs := Spans(ordered);
            SomeTouch(ordered) <==> exists i :: 0 < i < |runs| && runs[i - 1].End() == runs[i].start
  {
    var runs := Spans(ordered);
    if SomeTouch(ordered) { TouchIsFound(ordered); }
    if i :| 0 < i < |runs| && runs[i - 1].End() == runs[i].start {
      assert ordered[i - 1] in ordered && ordered[i] in ordered;
    }
  }

  lemma {:induction false} TouchIsFound(ordered: seq<(int, int)>)
    requires Ordered(Spans(ordered)) && SomeTouch(ordered)
    ensures var runs := Spans(ordered); exists i :: 0 < i < |runs| && runs[i - 1].End() == runs[i].start
  {
    var p, q :| p in ordered && q in ordered && p.0 + p.1 == q.0;
    var i: nat :| i < |ordered| && ordered[i] == p;
    var j: nat :| j < |ordered| && ordered[j] == q;
    TouchersAreNeighbours(Spans(ordered), i, j);
    assert Spans(ordered)[j - 1].End() == Spans(ordered)[j].start;
  }

  lemma {:induction false} SameElementsBetween(x: seq<(int, int)>, y: seq<(int, int)>, a: int)
    requires forall p :: p in x <==> p in y
    ensures Between(x, a) <==> Between(y, a)
    ensures SomeTouch(x) <==> SomeTouch(y)
  {
  }

  // ---- what coverage reports -----------------------------------------------------------------------------

  /** Whatever the segments, overlapping or not, there is exactly one list of uncovered stretches between
      them. */
  lemma {:induction false} StretchesExist(placed: seq<(int, int)>)
    requires placed != [] && Positive(Spans(placed))
    ensures var ordered := Sort(placed, PairLe);
            |ordered| == |placed| && UncoveredStretches(placed, GapRuns(Spans(ordered), |placed|))
  {
    var ordered, n := Sort(placed, PairLe), |placed|;
    SortSorts(placed, PairLe);
    SortedSpans(placed);
    var runs := Spans(ordered);
    GapRunsAreMaximal(runs, n);
    forall a ensures Holds(GapRuns(runs, n), a, ()) <==> Between(placed, a) {
      GapRunsMean(runs, n, a);
      BetweenIsInGap(ordered, a);
      SameElementsBetween(placed, ordered, a);
    }
  }

  lemma {:induction false} OnlyStretches(placed: seq<(int, int)>, x: seq<Run<()>>, y: seq<Run<()>>)
    requires UncoveredStretches(placed, x) && UncoveredStretches(placed, y)
    ensures x == y
  {
    forall a, l ensures Holds(x, a, l) <==> Holds(y, a, l) { assert l == (); }
    CanonicalUnique(x, y);
  }

  lemma {:induction false} NoSegments(gaps: seq<Run<()>>)
    requires UncoveredStretches([], gaps)
    ensures gaps == []
  {
    if gaps != [] {
      assert gaps[0].Puts(gaps[0].start, Some(()));
      assert Holds(gaps, gaps[0].start, ());
    }
  }

  /** The gap bytes never exceed the length of the uncovered stretches between the placed segments, and
      equal it if and only if no address is held twice. The gap count is never below the number of those
      stretches, and equals it if and only if, besides, no segment ends where another starts. */
  lemma {:induction false} GapCountExactly(segments: seq<Segment>, gaps: seq<Run<()>>)
    requires Positive(Spans(Placed(segments))) && UncoveredStretches(Placed(segments), gaps)
    ensures GapStats(segments).1 <= Sum(gaps, RunLength())
    ensures GapStats(segments).1 == Sum(gaps, RunLength()) <==> Disjoint(Spans(Placed(segments)))
    ensures GapStats(segments).0 >= |gaps|
    ensures GapStats(segments).0 == |gaps|
       <==> Disjoint(Spans(Placed(segments))) && !SomeTouch(Placed(segments))
  {
    var placed := Placed(segments);
    if placed == [] {
      NoSegments(gaps);
    } else {
      StretchesExist(placed);
      OnlyStretches(placed, gaps, GapRuns(Spans(Sort(placed, PairLe)), |placed|));
      SortedGaps(placed);
    }
  }

  lemma {:induction false} SortedGaps(placed: seq<(int, int)>)
    requires placed != [] && Positive(Spans(placed))
    ensures var ordered := Sort(placed, PairLe);
            && |ordered| == |placed|
            && (var gaps := GapRuns(Spans(ordered), |placed|);
                && GapBytes(ordered) <= Sum(gaps, RunLength())
                && (GapBytes(ordered) == Sum(gaps, RunLength()) <==> Disjoint(Spans(placed)))
                && |gaps| <= |placed| - 1
                && (|gaps| == |placed| - 1 <==> Disjoint(Spans(placed)) && !SomeTouch(placed)))
  {
    var ordered := Sort(placed, PairLe);
    SortSorts(placed, PairLe);
    SortedSpans(placed);
    OrderedIsDisjointSpans(placed);
    GapBytesExactly(ordered);
    GapRunsCount(Spans(ordered), |placed|);
    PastIsApart(Spans(ordered));
    if Ordered(Spans(ordered)) { TouchIsNeighbours(ordered); }
    SameElementsBetween(placed, ordered, 0);
  }

  /** Two segments of which the second lies inside the first: fewer than no bytes are reported. */
  lemma {:induction false} NestedCounted(x: Segment, y: Segment)
    requires x.va.Some? && y.va.Some? && y.length > 0
    requires x.va.value < y.va.value && y.va.value + y.length <= x.va.value + x.length
    ensures UncoveredStretches(Placed([x, y]), []) && GapStats([x, y]).0 == 1 && GapStats([x, y]).1 < 0
  {
    var p, q := (x.va.value, x.length), (y.va.value, y.length);
    PlacedPair(x, y);
    NothingBetween(p, q);
    PairStats(x, y);
  }

  lemma {:induction false} PlacedPair(x: Segment, y: Segment)
    requires x.va.Some? && y.va.Some?
    ensures Placed([x, y]) == [(x.va.value, x.length), (y.va.value, y.length)]
  {
    assert [x, y][..1] == [x] && [x][..0] == [];
    assert Placed([x]) == [(x.va.value, x.length)];
  }

  lemma {:induction false} NothingBetween(p: (int, int), q: (int, int))
    requires p.1 > 0 && q.1 > 0 && p.0 <= q.0 <= p.0 + p.1
    ensures UncoveredStretches([p, q], [])
  {
    assert p in [p, q] && q in [p, q];
    assert Canonical<()>([]);
    forall a ensures !Holds<()>([], a, ()) && !Between([p, q], a) {}
  }

  lemma {:induction false} PairSum(p: (int, int), q: (int, int))
    ensures Sum([p, q], PairLength()) == p.1 + q.1
  {
    SumSnoc([p], q, PairLength());
    SumSnoc([], p, PairLength());
    assert [] + [p] == [p] && [p] + [q] == [p, q];
  }

  /** Two segments that touch: no address between them is uncovered, and one gap is counted. */
  lemma {:induction false} TouchingCounted(x: Segment, y: Segment)
    requires x.va.Some? && y.va.Some? && x.length > 0 && y.length > 0 && x.va.value + x.length == y.va.value
    ensures UncoveredStretches(Placed([x, y]), []) && GapStats([x, y]) == (1, 0)
  {
    var p, q := (x.va.value, x.length), (y.va.value, y.length);
    PlacedPair(x, y);
    NothingBetween(p, q);
    PairStats(x, y);
  }

  /** What is reported of two segments in order of start. */
  lemma {:induction false} PairStats(x: Segment, y: Segment)
    requires x.va.Some? && y.va.Some? && x.va.value < y.va.value
    ensures GapStats([x, y]).0 == 1 && GapStats([x, y]).1 == y.va.value - (x.va.value + x.length)
  {
    var p, q := (x.va.value, x.length), (y.va.value, y.length);
    PlacedPair(x, y);
    PairSum(p, q);
    PairEnds(p, q);
    StatsOf([x, y], [p, q], p, q);
  }

  lemma {:induction false} PairEnds(p: (int, int), q: (int, int))
    requires p.0 < q.0
    ensures Outermost([p, q], p, q)
  {
    assert p in [p, q] && q in [p, q];
  }

  lemma {:induction false} StatsOf(segments: seq<Segment>, placed: seq<(int, int)>, first: (int, int), last: (int, int))
    requires Placed(segments) == placed && Outermost(placed, first, last)
    ensures GapStats(segments).0 == |placed| - 1
    ensures Sum(placed, PairLength()) + GapStats(segments).1 == last.0 + last.1 - first.0
  {
  }
}
