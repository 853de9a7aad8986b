/** What the `clipped_strings` count of a strings table is: the strings of the captured bytes that reach
    the end of what their owner sees (app/tools_strings.py). */
module StringClips {
  import opened Sequences
  import opened ScanPlan
  import opened ScanWindows
  import opened WindowedDetection
  import opened Strings
  import opened StringWindows
  import opened StringScan
  import opened StringTable

  // ---- one window ---------------------------------------------------------------------------------

  /** Is a report counted, judged at the end of what the owner of its position sees? */
  ghost function AtOwnerEnd(run: seq<byte>, g: Grid): Report<Text> -> int
    requires g.Valid()
  {
    (r: Report<Text>) => if CountedAsClipped(run, OwnerEnd(g, |run|, r.offset), r.offset, r.found) then 1 else 0
  }

  /** What a window counts is judged at its end; that is where the owner of each report ends. */
  lemma {:induction false} WindowClips(at: Detector<Text>, run: seq<byte>, g: Grid, w: int)
    requires g.Valid() && w in Windows(g, |run|)
    ensures var want := Want(g, |run|, w);
            Sum(ReportsAt(at, run, g, w), ReachesEnd(w, Last(g, |run|, w), |Slice(run, w, w + want)|))
            == Sum(ReportsAt(at, run, g, w), AtOwnerEnd(run, g))
  {
    var reports, size := ReportsAt(at, run, g, w), |Slice(run, w, w + Want(g, |run|, w))|;
    WindowSize(run, g, w);
    forall r | r in reports ensures ReachesEnd(w, Last(g, |run|, w), size)(r) == AtOwnerEnd(run, g)(r) {
      OwnWindow(at, run, g, w, r);
    }
    SumSame(reports, ReachesEnd(w, Last(g, |run|, w), size), AtOwnerEnd(run, g));
  }

  lemma {:induction false} JobClips(add: Adder, plan: Plan, req: Request, t: Tally, j: Job)
    requires Adds(add, plan, req)
    ensures add(t, j).clipped
         == t.clipped + Sum(ReportsOf(plan, req, j),
                            ReachesEnd(j.window, LastOf(plan, req.grid, j), |DataOf(plan, req.grid, j)|))
  {
    assert add(t, j) == AddJob(plan, req, t, j);
  }

  lemma {:induction false} AddedClips(add: Adder, plan: Plan, req: Request, stream: seq<byte>, t: Tally, s: nat,
                                      k: nat)
    requires plan.Valid() && req.Valid() && Adds(add, plan, req) && Faithful(plan, stream)
    requires s < |plan.segments| && k < |Windows(req.grid, plan.segments[s].length)|
    ensures |RunOf(plan, stream, s)| == plan.segments[s].length
    ensures var run := RunOf(plan, stream, s);
            add(t, Job(s, Windows(req.grid, plan.segments[s].length)[k])).clipped
            == t.clipped + Sum(WindowParts(req.Detects(), run, req.grid)[k], AtOwnerEnd(run, req.grid))
  {
    var w := Windows(req.grid, plan.segments[s].length)[k];
    JobReports(plan, req, stream, s, k);
    JobClips(add, plan, req, t, Job(s, w));
    WindowClips(req.Detects(), RunOf(plan, stream, s), req.grid, w);
  }

  /** Window `from + k` counts what `f` says of its reports. */
  ghost predicate CountsPart(add: Adder, all: seq<Job>, from: nat, parts: seq<seq<Report<Text>>>,
                             f: Report<Text> -> int, k: nat)
    requires from + |parts| <= |all| && k < |parts|
  {
    TallyOf(add, all, from + k + 1).clipped == TallyOf(add, all, from + k).clipped + Sum(parts[k], f)
  }

  lemma {:induction false} PartsCounted(add: Adder, all: seq<Job>, from: nat, parts: seq<seq<Report<Text>>>,
                                        f: Report<Text> -> int, k: nat)
    requires from + |parts| <= |all| && k <= |parts| && CountsParts(add, all, from, parts, f)
    ensures TallyOf(add, all, from + k).clipped == TallyOf(add, all, from).clipped + Sum(Flat(parts, k), f)
  {
    if k > 0 {
      PartsCounted(add, all, from, parts, f, k - 1);
      assert CountsPart(add, all, from, parts, f, k - 1);
      SumAppend(Flat(parts, k - 1), parts[k - 1], f);
    }
  }

  lemma {:induction false} SegmentCounts(plan: Plan, req: Request, add: Adder, stream: seq<byte>,
                                         all: seq<Job>, starts: seq<nat>, s: nat, k: nat)
    requires Scanning(plan, req, add, stream, all, starts)
    requires s < |plan.segments| && k < |Windows(req.grid, plan.segments[s].length)|
    ensures |RunOf(plan, stream, s)| == plan.segments[s].length
    ensures var run := RunOf(plan, stream, s);
            var parts := WindowParts(req.Detects(), run, req.grid);
            && starts[s + 1] == starts[s] + |parts| <= |all|
            && CountsPart(add, all, starts[s], parts, AtOwnerEnd(run, req.grid), k)
  {
    SegmentWindows(plan, req.grid, all, starts, s, k);
    AddedClips(add, plan, req, stream, TallyOf(add, all, starts[s] + k), s, k);
    OneMoreWindow(add, all, starts[s] + k);
  }

  ghost predicate CountsParts(add: Adder, all: seq<Job>, from: nat, parts: seq<seq<Report<Text>>>,
                              f: Report<Text> -> int)
    requires from + |parts| <= |all|
  {
    forall k: nat {:trigger CountsPart(add, all, from, parts, f, k)} ::
      k < |parts| ==> CountsPart(add, all, from, parts, f, k)
  }

  lemma {:induction false} SegmentCountsAll(plan: Plan, req: Request, add: Adder, stream: seq<byte>,
                                            all: seq<Job>, starts: seq<nat>, s: nat)
    requires Scanning(plan, req, add, stream, all, starts) && s < |plan.segments|
    ensures var run := RunOf(plan, stream, s); var parts := WindowParts(req.Detects(), run, req.grid);
            && starts[s + 1] == starts[s] + |parts| <= |all|
            && CountsParts(add, all, starts[s], parts, AtOwnerEnd(run, req.grid))
  {
    var run := RunOf(plan, stream, s);
    var parts := WindowParts(req.Detects(), run, req.grid);
    FirstWindow(req.grid, plan.segments[s].length);
    SegmentCounts(plan, req, add, stream, all, starts, s, 0);
    forall k: nat | k < |parts| ensures CountsPart(add, all, starts[s], parts, AtOwnerEnd(run, req.grid), k) {
      SegmentCounts(plan, req, add, stream, all, starts, s, k);
    }
  }

  lemma {:induction false} AllCounted(add: Adder, all: seq<Job>, from: nat, to: nat, parts: seq<seq<Report<Text>>>,
                                      f: Report<Text> -> int)
    requires from + |parts| == to <= |all| && CountsParts(add, all, from, parts, f)
    ensures TallyOf(add, all, to).clipped == TallyOf(add, all, from).clipped + Sum(Flat(parts, |parts|), f)
  {
    PartsCounted(add, all, from, parts, f, |parts|);
  }

  lemma {:induction false} SegmentClips(plan: Plan, req: Request, add: Adder, stream: seq<byte>,
                                        all: seq<Job>, starts: seq<nat>, s: nat)
    requires Scanning(plan, req, add, stream, all, starts) && s < |plan.segments|
    ensures starts[s] <= |all| && starts[s + 1] <= |all|
    ensures var run := RunOf(plan, stream, s); var parts := WindowParts(req.Detects(), run, req.grid);
            TallyOf(add, all, starts[s + 1]).clipped
            == TallyOf(add, all, starts[s]).clipped + Sum(Flat(parts, |parts|), AtOwnerEnd(run, req.grid))
  {
    var run := RunOf(plan, stream, s);
    var parts := WindowParts(req.Detects(), run, req.grid);
    SegmentCountsAll(plan, req, add, stream, all, starts, s);
    AllCounted(add, all, starts[s], starts[s + 1], parts, AtOwnerEnd(run, req.grid));
  }

  // ---- one run --------------------------------------------------------------------------------------

  /** The string of this encoding at `p` is reported by its owner and reaches the end of what that sees. */
  ghost predicate Counted(w: Wanted, run: seq<byte>, g: Grid, p: int, wide: bool)
    requires g.Valid()
  {
    Looks(w, wide) && StringCounted(wide, w.minLength, run, OwnerEnd(g, |run|, p), p)
  }

  /** The strings below position `n` for which that holds, by position and encoding. */
  ghost function CountedBelow(w: Wanted, run: seq<byte>, g: Grid, n: int): set<(int, bool)>
    requires g.Valid()
  {
    set p, wide | 0 <= p < n && Counted(w, run, g, p, wide) :: (p, wide)
  }

  ghost function CountedHere(w: Wanted, run: seq<byte>, g: Grid, p: int): (r: set<(int, bool)>)
    requires g.Valid()
    ensures |r| == (if Counted(w, run, g, p, false) then 1 else 0) + (if Counted(w, run, g, p, true) then 1 else 0)
  {
    (if Counted(w, run, g, p, false) then {(p, false)} else {})
    + (if Counted(w, run, g, p, true) then {(p, true)} else {})
  }

  lemma {:induction false} CountedNext(w: Wanted, run: seq<byte>, g: Grid, n: nat)
    requires g.Valid()
    ensures |CountedBelow(w, run, g, n + 1)| == |CountedBelow(w, run, g, n)| + |CountedHere(w, run, g, n)|
  {
    var below, here, next := CountedBelow(w, run, g, n), CountedHere(w, run, g, n), CountedBelow(w, run, g, n + 1);
    forall p, wide ensures (p, wide) in here <==> p == n && Counted(w, run, g, n, wide) {}
    forall x ensures x in next <==> x in below || x in here {
      assert x == (x.0, x.1);
    }
    Apart(next, below, here);
  }

  lemma {:induction false} Apart(all: set<(int, bool)>, x: set<(int, bool)>, y: set<(int, bool)>)
    requires (forall u :: u in all <==> u in x || u in y) && x !! y
    ensures |all| == |x| + |y|
  {
    assert all == x + y;
  }

  lemma {:induction false} SumTagged(found: seq<Text>, p: int, f: Report<Text> -> int)
    requires |found| <= 1
    ensures Sum(Tagged(found, p), f) == if found == [] then 0 else f(Report(p, found[0]))
  {
    if found != [] {
      assert Tagged(found, p) == [Report(p, found[0])];
      SumOne(Report(p, found[0]), f);
    }
  }

  lemma {:induction false} OneClip(wide: bool, minLength: int, run: seq<byte>, g: Grid, p: int)
    requires g.Valid()
    ensures var e := OwnerEnd(g, |run|, p);
            Sum(Tagged(CutText(wide, minLength, run, e, p), p), AtOwnerEnd(run, g))
            == if StringCounted(wide, minLength, run, e, p) then 1 else 0
  {
    SumTagged(CutText(wide, minLength, run, OwnerEnd(g, |run|, p), p), p, AtOwnerEnd(run, g));
  }

  lemma {:induction false} TaggedSum(x: seq<Text>, y: seq<Text>, p: int, f: Report<Text> -> int)
    ensures Sum(Tagged(x + y, p), f) == Sum(Tagged(x, p), f) + Sum(Tagged(y, p), f)
  {
    assert Tagged(x + y, p) == Tagged(x, p) + Tagged(y, p);
    SumAppend(Tagged(x, p), Tagged(y, p), f);
  }

  lemma {:induction false} ClipsHere(w: Wanted, run: seq<byte>, g: Grid, at: Detector<Text>, f: Report<Text> -> int,
                                     p: int)
    requires g.Valid() && at == CutStringsOf(w, OwnerEnds(g, |run|)) && f == AtOwnerEnd(run, g)
    ensures Sum(Tagged(at(run, p), p), f) == |CountedHere(w, run, g, p)|
  {
    var e := OwnerEnd(g, |run|, p);
    TaggedSum(if w.ascii then CutText(false, w.minLength, run, e, p) else [],
              if w.utf16 then CutText(true, w.minLength, run, e, p) else [], p, AtOwnerEnd(run, g));
    OneClip(false, w.minLength, run, g, p);
    OneClip(true, w.minLength, run, g, p);
  }

  lemma {:induction false} MatchesSum(at: Detector<Text>, run: seq<byte>, n: nat, f: Report<Text> -> int)
    ensures Sum(MatchesBelow(at, run, n + 1), f) == Sum(MatchesBelow(at, run, n), f) + Sum(Tagged(at(run, n), n), f)
  {
    assert MatchesBelow(at, run, n + 1) == MatchesBelow(at, run, n) + Tagged(at(run, n), n);
    SumAppend(MatchesBelow(at, run, n), Tagged(at(run, n), n), f);
  }

  ghost predicate ClipsTo(w: Wanted, run: seq<byte>, g: Grid, at: Detector<Text>, f: Report<Text> -> int, n: nat)
    requires g.Valid()
  {
    Sum(MatchesBelow(at, run, n), f) == |CountedBelow(w, run, g, n)|
  }

  lemma {:induction false} ClipsNext(w: Wanted, run: seq<byte>, g: Grid, at: Detector<Text>, f: Report<Text> -> int,
                                     n: nat)
    requires g.Valid() && ClipsTo(w, run, g, at, f, n)
    requires Sum(Tagged(at(run, n), n), f) == |CountedHere(w, run, g, n)|
    ensures ClipsTo(w, run, g, at, f, n + 1)
  {
    MatchesSum(at, run, n, f);
    CountedNext(w, run, g, n);
  }

  lemma {:induction false} NoneCounted(w: Wanted, run: seq<byte>, g: Grid, at: Detector<Text>,
                                       f: Report<Text> -> int, n: nat)
    requires g.Valid() && n == 0
    ensures ClipsTo(w, run, g, at, f, n)
  {
    assert CountedBelow(w, run, g, 0) == {};
  }

  lemma {:induction false} ClipsBelow(w: Wanted, run: seq<byte>, g: Grid, at: Detector<Text>, f: Report<Text> -> int,
                                      n: nat)
    requires g.Valid() && at == CutStringsOf(w, OwnerEnds(g, |run|)) && f == AtOwnerEnd(run, g)
    ensures ClipsTo(w, run, g, at, f, n)
  {
    if n == 0 {
      NoneCounted(w, run, g, at, f, n);
    } else {
      ClipsBelow(w, run, g, at, f, n - 1);
      ClipsHere(w, run, g, at, f, n - 1);
      ClipsNext(w, run, g, at, f, n - 1);
    }
  }

  /** Where the guard hides tails, a run's windows count each such string once and nothing else. */
  lemma {:induction false} RunClips(w: Wanted, run: seq<byte>, g: Grid)
    requires g.Valid() && Guarded(w, g) && w.minLength >= 1
    ensures Sum(ScanReports(StringsOf(w), run, g, Windows(g, |run|)), AtOwnerEnd(run, g))
         == |CountedBelow(w, run, g, |run|)|
  {
    StringsAreCut(w, run, g);
    ClipsBelow(w, run, g, CutStringsOf(w, OwnerEnds(g, |run|)), AtOwnerEnd(run, g), |run|);
  }

  // ---- a whole plan ---------------------------------------------------------------------------------

  /** How many strings of segment `s` reach the end of what their owner sees. */
  ghost function SegmentClipped(plan: Plan, req: Request, stream: seq<byte>, s: nat): nat
    requires req.Valid() && s < |plan.segments|
  {
    var run := RunOf(plan, stream, s);
    |CountedBelow(WantedOf(req.encodings, req.minLength), run, req.grid, |run|)|
  }

  /** The same for each segment. */
  ghost function ClippedStrings(plan: Plan, req: Request, stream: seq<byte>): (r: seq<nat>)
    requires req.Valid()
    ensures |r| == |plan.segments| && forall s :: 0 <= s < |r| ==> r[s] == SegmentClipped(plan, req, stream, s)
  {
    seq(|plan.segments|, s requires 0 <= s < |plan.segments| => SegmentClipped(plan, req, stream, s))
  }

  ghost function Total(counts: seq<nat>, n: nat): nat
    requires n <= |counts|
  {
    if n == 0 then 0 else Total(counts, n - 1) + counts[n - 1]
  }

  /** The windows between two marks count `counts[s]`. */
  ghost predicate AddsCount(add: Adder, all: seq<Job>, starts: seq<nat>, counts: seq<nat>, s: nat)
    requires s < |counts| < |starts|
  {
    && starts[s] <= |all| && starts[s + 1] <= |all|
    && TallyOf(add, all, starts[s + 1]).clipped == TallyOf(add, all, starts[s]).clipped + counts[s]
  }

  lemma {:induction false} CountsAdded(add: Adder, all: seq<Job>, starts: seq<nat>, counts: seq<nat>, s: nat)
    requires s <= |counts| < |starts| && starts[0] == 0
    requires forall i: nat {:trigger AddsCount(add, all, starts, counts, i)} ::
               i < |counts| ==> AddsCount(add, all, starts, counts, i)
    ensures starts[s] <= |all| && TallyOf(add, all, starts[s]).clipped == Total(counts, s)
  {
    if s > 0 {
      CountsAdded(add, all, starts, counts, s - 1);
      assert AddsCount(add, all, starts, counts, s - 1);
    }
  }

  lemma {:induction false} SegmentRun(plan: Plan, req: Request, stream: seq<byte>, s: nat)
    requires plan.Valid() && req.Valid() && Faithful(plan, stream) && s < |plan.segments|
    ensures |RunOf(plan, stream, s)| == plan.segments[s].length
  {
    FirstWindow(req.grid, plan.segments[s].length);
    WindowData(plan, req.grid, stream, s, 0);
  }

  lemma {:induction false} SegmentCounted(plan: Plan, req: Request, add: Adder, stream: seq<byte>,
                                          all: seq<Job>, starts: seq<nat>, s: nat)
    requires Scanning(plan, req, add, stream, all, starts) && s < |plan.segments|
    requires Guarded(WantedOf(req.encodings, req.minLength), req.grid)
    ensures AddsCount(add, all, starts, ClippedStrings(plan, req, stream), s)
  {
    SegmentClips(plan, req, add, stream, all, starts, s);
    RunIsScanned(req, RunOf(plan, stream, s));
    SegmentRun(plan, req, stream, s);
    RunClips(WantedOf(req.encodings, req.minLength), RunOf(plan, stream, s), req.grid);
  }

  /** Reading every window in full counts those strings, segment by segment. */
  lemma {:induction false} ClipsAddUp(plan: Plan, req: Request, add: Adder, stream: seq<byte>,
                                      all: seq<Job>, starts: seq<nat>, s: nat)
    requires Scanning(plan, req, add, stream, all, starts) && s <= |plan.segments|
    requires Guarded(WantedOf(req.encodings, req.minLength), req.grid)
    ensures starts[s] <= |all|
    ensures TallyOf(add, all, starts[s]).clipped == Total(ClippedStrings(plan, req, stream), s)
  {
    var counts := ClippedStrings(plan, req, stream);
    forall i: nat | i < |counts| ensures AddsCount(add, all, starts, counts, i) {
      SegmentCounted(plan, req, add, stream, all, starts, i);
    }
    CountsAdded(add, all, starts, counts, s);
  }

  /** The `clipped_strings` of a complete table is the number of strings of the captured bytes that are
      reported and reach the end of what their owner sees. */
  lemma {:induction false} CompleteClips(plan: Plan, req: Request, stream: seq<byte>, clipped: int)
    requires plan.Valid() && req.Valid() && Faithful(plan, stream)
    requires Guarded(WantedOf(req.encodings, req.minLength), req.grid)
    requires IsClippedCount(plan, req, true, clipped)
    ensures clipped == Total(ClippedStrings(plan, req, stream), |plan.segments|)
  {
    var all, starts :| InScanOrder(plan, req.grid, all, starts)
                       && clipped == TallyOf(Adding(plan, req), all, |all|).clipped;
    ClipsAddUp(plan, req, Adding(plan, req), stream, all, starts, |plan.segments|);
  }
}
