/** What the strings table of a dump promises: which rows it holds, when it is truncated, and how
    many bytes it accounts for (app/tools_strings.py). */
module StringTable {
  import opened Sequences
  import opened ScanPlan
  import opened ScanWindows
  import opened WindowedDetection
  import opened Strings
  import opened StringWindows
  import opened StringScan
  import opened StringRows

  // ---- the row limit ------------------------------------------------------------------------------

  /** `add` never drops or changes rows. */
  ghost predicate KeepsRows(add: Adder) {
    forall t: Tally, j: Job {:trigger add(t, j)} :: t.rows <= add(t, j).rows
  }

  lemma {:induction false} AddsKeepsRows(add: Adder, plan: Plan, req: Request)
    requires Adds(add, plan, req)
    ensures KeepsRows(add)
  {
    forall t: Tally, j: Job ensures t.rows <= add(t, j).rows {
      assert add(t, j) == AddJob(plan, req, t, j);
    }
  }

  lemma {:induction false} RowsGrow(add: Adder, all: seq<Job>, m: nat, n: nat)
    requires KeepsRows(add) && m <= n <= |all|
    ensures TallyOf(add, all, m).rows <= TallyOf(add, all, n).rows
    decreases n - m
  {
    if m < n { RowsGrow(add, all, m, n - 1); }
  }

  /** Where a scan stops: at the end, or at the first window after which the limit is met. */
  lemma {:induction false} StopsAtFirst(add: Adder, limit: int, all: seq<Job>, n: nat)
    requires KeepsRows(add) && n <= |all|
    ensures var r := Stop(add, limit, all, n);
            && (r < |all| ==> |TallyOf(add, all, r).rows| >= limit)
            && (n < r ==> r == n + 1 || |TallyOf(add, all, r - 1).rows| < limit)
    decreases |all| - n
  {
    if n < |all| && |TallyOf(add, all, n + 1).rows| < limit {
      StopsAtFirst(add, limit, all, n + 1);
    }
  }

  /** A stopped scan reads every window and keeps every row unless it reports `truncated`; the
      rows it returns are always the first ones of the unlimited scan; and it reports `truncated`
      exactly when rows were dropped or the limit was already met before the last window. */
  lemma {:induction false} TruncatedExactly(add: Adder, limit: int, all: seq<Job>)
    requires KeepsRows(add) && limit >= 1
    ensures var n := Stop(add, limit, all, 0);
            var got, full := TallyOf(add, all, n), TallyOf(add, all, |all|);
            var truncated := |got.rows| > limit || (|got.rows| == limit && n < |all|);
            && got.rows[..Min(limit, |got.rows|)] == full.rows[..Min(limit, |full.rows|)]
            && (!truncated ==> n == |all| && got == full && |full.rows| <= limit)
            && (truncated <==> |full.rows| > limit
                               || (all != [] && |TallyOf(add, all, |all| - 1).rows| >= limit))
  {
    var n := Stop(add, limit, all, 0);
    StopsAtFirst(add, limit, all, 0);
    RowsGrow(add, all, n, |all|);
    if n < |all| { RowsGrow(add, all, n, |all| - 1); }
  }

  // ---- bytes ----------------------------------------------------------------------------------------

  /** The read of a window came back in full. */
  ghost predicate Full(plan: Plan, g: Grid, j: Job) { |DataOf(plan, g, j)| >= WantOf(plan, g, j) }

  ghost predicate AllFull(plan: Plan, g: Grid, all: seq<Job>) {
    forall i {:trigger Full(plan, g, all[i])} :: 0 <= i < |all| ==> Full(plan, g, all[i])
  }

  lemma {:induction false} AddedShort(add: Adder, plan: Plan, req: Request, t: Tally, j: Job)
    requires Adds(add, plan, req)
    ensures add(t, j).shortReads == t.shortReads + if Full(plan, req.grid, j) then 0 else 1
  {
    assert add(t, j) == AddJob(plan, req, t, j);
  }

  /** No short read was counted exactly when every window came back in full. */
  lemma {:induction false} NoShortReads(plan: Plan, req: Request, add: Adder, all: seq<Job>, n: nat)
    requires Adds(add, plan, req) && n <= |all|
    ensures TallyOf(add, all, n).shortReads >= 0
    ensures TallyOf(add, all, n).shortReads == 0 <==> forall i :: 0 <= i < n ==> Full(plan, req.grid, all[i])
  {
    if n > 0 {
      NoShortReads(plan, req, add, all, n - 1);
      AddedShort(add, plan, req, TallyOf(add, all, n - 1), all[n - 1]);
    }
  }

  lemma {:induction false} JobBytes(add: Adder, plan: Plan, req: Request, t: Tally, j: Job)
    requires plan.Valid() && Adds(add, plan, req) && Full(plan, req.grid, j) && WantOf(plan, req.grid, j) >= 0
    ensures add(t, j).bytesScanned
         == t.bytesScanned + OwnedBytes(req.grid, WantOf(plan, req.grid, j), LastOf(plan, req.grid, j))
  {
    assert add(t, j) == AddJob(plan, req, t, j);
    assert |DataOf(plan, req.grid, j)| <= WantOf(plan, req.grid, j);
  }

  /** The bytes a window owns reach from its start to the next window's, the last one's to the end. */
  lemma {:induction false} WindowStep(g: Grid, length: int, k: nat)
    requires g.Valid() && 0 < length && k < |Windows(g, length)|
    ensures var w := Windows(g, length)[k];
            && Want(g, length, w) > 0
            && OwnedBytes(g, Want(g, length, w), Last(g, length, w))
               == NextWindow(g, length, k + 1) - NextWindow(g, length, k)
  {
    var ws := Windows(g, length);
    WindowsTile(g, length);
    LaterWindows(g, length, 0, ws, ws[k]);
    assert Last(g, length, ws[k]) <==> k == |ws| - 1;
    if k + 1 < |ws| { assert ws[k + 1] == ws[k] + g.Step(); }
  }

  /** A window that came back in full accounts for the bytes up to the next window, the last one
      for all that is left. */
  lemma {:induction false} AddedBytes(add: Adder, plan: Plan, req: Request, t: Tally, s: nat, k: nat)
    requires plan.Valid() && req.Valid() && Adds(add, plan, req)
    requires s < |plan.segments| && k < |Windows(req.grid, plan.segments[s].length)|
    requires Full(plan, req.grid, Job(s, Windows(req.grid, plan.segments[s].length)[k]))
    ensures add(t, Job(s, Windows(req.grid, plan.segments[s].length)[k])).bytesScanned
         == t.bytesScanned + NextWindow(req.grid, plan.segments[s].length, k + 1)
                           - NextWindow(req.grid, plan.segments[s].length, k)
  {
    WindowStep(req.grid, plan.segments[s].length, k);
    JobBytes(add, plan, req, t, Job(s, Windows(req.grid, plan.segments[s].length)[k]));
  }

  /** Where window `k` starts, and the run's end for the one after the last. */
  ghost function NextWindow(g: Grid, length: int, k: nat): int
    requires g.Valid()
  {
    if k < |Windows(g, length)| then Windows(g, length)[k] else length
  }

  lemma {:induction false} FirstWindow(g: Grid, length: int)
    requires g.Valid() && length > 0
    ensures Windows(g, length) != [] && Windows(g, length)[0] == 0
  {
    WindowsTile(g, length);
  }

  lemma {:induction false} OneMoreWindow(add: Adder, all: seq<Job>, n: nat)
    requires n < |all|
    ensures TallyOf(add, all, n + 1) == add(TallyOf(add, all, n), all[n])
  {
  }

  /** The first `k` windows of a segment account for its bytes up to the next one. */
  ghost predicate BytesTo(plan: Plan, g: Grid, add: Adder, all: seq<Job>, starts: seq<nat>, s: nat, k: nat)
    requires g.Valid() && s < |plan.segments| && s < |starts|
  {
    && starts[s] + k <= |all|
    && TallyOf(add, all, starts[s] + k).bytesScanned
       == TallyOf(add, all, starts[s]).bytesScanned + NextWindow(g, plan.segments[s].length, k)
  }

  lemma {:induction false} NoBytes(plan: Plan, req: Request, add: Adder, all: seq<Job>, starts: seq<nat>, s: nat,
                                   k: nat)
    requires plan.Valid() && req.Valid() && InScanOrder(plan, req.grid, all, starts) && s < |plan.segments| && k == 0
    ensures BytesTo(plan, req.grid, add, all, starts, s, k)
  {
    FirstWindow(req.grid, plan.segments[s].length);
    SegmentWindows(plan, req.grid, all, starts, s, 0);
  }

  lemma {:induction false} WindowBytes(plan: Plan, req: Request, add: Adder, all: seq<Job>, starts: seq<nat>, s: nat,
                                       k: nat)
    requires plan.Valid() && req.Valid() && Adds(add, plan, req) && InScanOrder(plan, req.grid, all, starts)
    requires s < |plan.segments| && 0 < k <= |Windows(req.grid, plan.segments[s].length)|
    requires AllFull(plan, req.grid, all) && BytesTo(plan, req.grid, add, all, starts, s, k - 1)
    ensures BytesTo(plan, req.grid, add, all, starts, s, k)
  {
    SegmentWindows(plan, req.grid, all, starts, s, k - 1);
    var n := starts[s] + k - 1;
    assert Full(plan, req.grid, all[n]);
    AddedBytes(add, plan, req, TallyOf(add, all, n), s, k - 1);
    OneMoreWindow(add, all, n);
  }

  lemma {:induction false} SegmentBytes(plan: Plan, req: Request, add: Adder, all: seq<Job>, starts: seq<nat>, s: nat,
                                        k: nat)
    requires plan.Valid() && req.Valid() && Adds(add, plan, req) && InScanOrder(plan, req.grid, all, starts)
    requires s < |plan.segments| && k <= |Windows(req.grid, plan.segments[s].length)| && AllFull(plan, req.grid, all)
    ensures BytesTo(plan, req.grid, add, all, starts, s, k)
  {
    if k == 0 {
      NoBytes(plan, req, add, all, starts, s, k);
    } else {
      SegmentBytes(plan, req, add, all, starts, s, k - 1);
      WindowBytes(plan, req, add, all, starts, s, k);
    }
  }

  /** The captured bytes of the first `s` segments. */
  ghost function CapturedBelow(plan: Plan, s: nat): int
    requires s <= |plan.segments|
  {
    if s == 0 then 0 else CapturedBelow(plan, s - 1) + plan.segments[s - 1].length
  }

  /** With no short read, the bytes counted as scanned are exactly the plan's captured bytes,
      segment by segment: the overlaps are counted once. */
  lemma {:induction false} BytesAddUp(plan: Plan, req: Request, add: Adder, all: seq<Job>, starts: seq<nat>, s: nat)
    requires plan.Valid() && req.Valid() && Adds(add, plan, req) && InScanOrder(plan, req.grid, all, starts)
    requires s <= |plan.segments| && AllFull(plan, req.grid, all)
    ensures starts[s] <= |all|
    ensures TallyOf(add, all, starts[s]).bytesScanned == CapturedBelow(plan, s)
  {
    if s > 0 {
      var count := |Windows(req.grid, plan.segments[s - 1].length)|;
      BytesAddUp(plan, req, add, all, starts, s - 1);
      FirstWindow(req.grid, plan.segments[s - 1].length);
      SegmentWindows(plan, req.grid, all, starts, s - 1, count - 1);
      SegmentBytes(plan, req, add, all, starts, s - 1, count);
    }
  }

  // ---- rows -----------------------------------------------------------------------------------------

  /** The bytes of segment `s` in the captured stream. */
  ghost function RunOf(plan: Plan, stream: seq<byte>, s: nat): seq<byte>
    requires s < |plan.segments|
  {
    Slice(stream, plan.segments[s].vas, plan.segments[s].vas + plan.segments[s].length)
  }

  ghost predicate FaithfulRead(plan: Plan, stream: seq<byte>, s: nat, w: int, n: int)
    requires s < |plan.segments|
  {
    && |RunOf(plan, stream, s)| == plan.segments[s].length
    && plan.read(plan.segments[s].vas + w, n) == Slice(RunOf(plan, stream, s), w, w + n)
  }

  /** Every read inside a segment returns what the stream holds there, in full. */
  ghost predicate Faithful(plan: Plan, stream: seq<byte>) {
    forall s: nat, w, n {:trigger FaithfulRead(plan, stream, s, w, n)} ::
      s < |plan.segments| && 0 <= w && 0 < n && w + n <= plan.segments[s].length ==>
      FaithfulRead(plan, stream, s, w, n)
  }

  /** What each window of a run reports. */
  ghost function WindowParts(at: Detector<Text>, run: seq<byte>, g: Grid): (r: seq<seq<Report<Text>>>)
    requires g.Valid()
    ensures |r| == |Windows(g, |run|)|
  {
    var ws := Windows(g, |run|);
    seq(|ws|, k requires 0 <= k < |ws| => ReportsAt(at, run, g, ws[k]))
  }

  lemma {:induction false} PartsAndRest(at: Detector<Text>, run: seq<byte>, g: Grid, k: nat)
    requires g.Valid() && k <= |Windows(g, |run|)|
    ensures Flat(WindowParts(at, run, g), k) + ScanReports(at, run, g, Windows(g, |run|)[k..])
         == ScanReports(at, run, g, Windows(g, |run|))
  {
    var ws := Windows(g, |run|);
    if k == 0 {
      assert ws[0..] == ws;
    } else {
      PartsAndRest(at, run, g, k - 1);
      assert ws[k - 1..][1..] == ws[k..];
      Associative(Flat(WindowParts(at, run, g), k - 1), ReportsAt(at, run, g, ws[k - 1]),
                  ScanReports(at, run, g, ws[k..]));
    }
  }

  lemma {:induction false} RunIsScanned(req: Request, run: seq<byte>)
    requires req.Valid()
    ensures Flat(WindowParts(req.Detects(), run, req.grid), |Windows(req.grid, |run|)|)
         == ScanReports(req.Detects(), run, req.grid, Windows(req.grid, |run|))
  {
    var count := |Windows(req.grid, |run|)|;
    PartsAndRest(req.Detects(), run, req.grid, count);
    AppendNothing(Flat(WindowParts(req.Detects(), run, req.grid), count));
  }

  /** A scan of a plan over a captured stream: `add` adds up its windows, which `all` lists. */
  ghost predicate Scanning(plan: Plan, req: Request, add: Adder, stream: seq<byte>, all: seq<Job>, starts: seq<nat>) {
    && plan.Valid() && req.Valid() && Adds(add, plan, req)
    && InScanOrder(plan, req.grid, all, starts) && Faithful(plan, stream)
  }

  /** A window's read is the part of the run it asks for. */
  lemma {:induction false} WindowData(plan: Plan, g: Grid, stream: seq<byte>, s: nat, k: nat)
    requires plan.Valid() && g.Valid() && Faithful(plan, stream)
    requires s < |plan.segments| && k < |Windows(g, plan.segments[s].length)|
    ensures |RunOf(plan, stream, s)| == plan.segments[s].length
    ensures var length := plan.segments[s].length; var w := Windows(g, length)[k]; var want := Want(g, length, w);
            plan.read(plan.segments[s].vas + w, want) == Slice(RunOf(plan, stream, s), w, w + want)
  {
    var length := plan.segments[s].length;
    var w := Windows(g, length)[k];
    LaterWindows(g, length, 0, Windows(g, length), w);
    assert FaithfulRead(plan, stream, s, w, Want(g, length, w));
  }

  /** A window of the scan sees its part of the run, and reports what that window of the run reports. */
  lemma {:induction false} JobReports(plan: Plan, req: Request, stream: seq<byte>, s: nat, k: nat)
    requires plan.Valid() && req.Valid() && Faithful(plan, stream)
    requires s < |plan.segments| && k < |Windows(req.grid, plan.segments[s].length)|
    ensures |RunOf(plan, stream, s)| == plan.segments[s].length
    ensures var g, run, w := req.grid, RunOf(plan, stream, s), Windows(req.grid, plan.segments[s].length)[k];
            && DataOf(plan, g, Job(s, w)) == Slice(run, w, w + Want(g, |run|, w))
            && ReportsOf(plan, req, Job(s, w)) == ReportsAt(req.Detects(), run, g, w)
            && WindowParts(req.Detects(), run, g)[k] == ReportsAt(req.Detects(), run, g, w)
            && LastOf(plan, g, Job(s, w)) == Last(g, |run|, w)
  {
    var run, w := RunOf(plan, stream, s), Windows(req.grid, plan.segments[s].length)[k];
    WindowData(plan, req.grid, stream, s, k);
    JobOfWindow(plan, req, run, s, w);
    assert WindowParts(req.Detects(), run, req.grid)[k] == ReportsAt(req.Detects(), run, req.grid, w);
  }

  lemma {:induction false} JobOfWindow(plan: Plan, req: Request, run: seq<byte>, s: nat, w: int)
    requires s < |plan.segments| && |run| == plan.segments[s].length
    requires plan.read(plan.segments[s].vas + w, Want(req.grid, |run|, w))
               == Slice(run, w, w + Want(req.grid, |run|, w))
    ensures DataOf(plan, req.grid, Job(s, w)) == Slice(run, w, w + Want(req.grid, |run|, w))
    ensures ReportsOf(plan, req, Job(s, w)) == ReportsAt(req.Detects(), run, req.grid, w)
    ensures LastOf(plan, req.grid, Job(s, w)) == Last(req.grid, |run|, w)
  {
  }

  lemma {:induction false} AddedRows(add: Adder, plan: Plan, req: Request, stream: seq<byte>, t: Tally, s: nat, k: nat)
    requires plan.Valid() && req.Valid() && Adds(add, plan, req) && Faithful(plan, stream)
    requires s < |plan.segments| && k < |Windows(req.grid, plan.segments[s].length)|
    ensures |RunOf(plan, stream, s)| == plan.segments[s].length
    ensures add(t, Job(s, Windows(req.grid, plan.segments[s].length)[k])).rows
         == t.rows + RowsOf(plan.segments[s], WindowParts(req.Detects(), RunOf(plan, stream, s), req.grid)[k])
  {
    JobReports(plan, req, stream, s, k);
    JobRows(add, plan, req, t, Job(s, Windows(req.grid, plan.segments[s].length)[k]));
  }

  lemma {:induction false} JobRows(add: Adder, plan: Plan, req: Request, t: Tally, j: Job)
    requires Adds(add, plan, req) && j.segment < |plan.segments|
    ensures add(t, j).rows == t.rows + RowsOf(plan.segments[j.segment], ReportsOf(plan, req, j))
  {
    assert add(t, j) == AddJob(plan, req, t, j);
  }

  lemma {:induction false} RowsOfAppend(s: Segment, x: seq<Report<Text>>, y: seq<Report<Text>>)
    ensures RowsOf(s, x + y) == RowsOf(s, x) + RowsOf(s, y)
  {
    if y == [] {
      AppendNothing(x);
      AppendNothing(RowsOf(s, x));
    } else {
      var n := |y| - 1;
      RowsOfAppend(s, x, y[..n]);
      assert x + y == (x + y[..n]) + [y[n]];
      assert ((x + y[..n]) + [y[n]])[..|x + y[..n]|] == x + y[..n];
    }
  }

  ghost function RowParts(s: Segment, reports: seq<seq<Report<Text>>>): (r: seq<seq<Row>>)
    ensures |r| == |reports| && forall k :: 0 <= k < |r| ==> r[k] == RowsOf(s, reports[k])
  {
    seq(|reports|, k requires 0 <= k < |reports| => RowsOf(s, reports[k]))
  }

  lemma {:induction false} FlatRows(s: Segment, reports: seq<seq<Report<Text>>>, k: nat)
    requires k <= |reports|
    ensures Flat(RowParts(s, reports), k) == RowsOf(s, Flat(reports, k))
  {
    if k > 0 {
      FlatRows(s, reports, k - 1);
      RowsOfAppend(s, Flat(reports, k - 1), reports[k - 1]);
    }
  }

  lemma {:induction false} SegmentAdds(plan: Plan, req: Request, add: Adder, stream: seq<byte>,
                                       all: seq<Job>, starts: seq<nat>, s: nat, k: nat)
    requires Scanning(plan, req, add, stream, all, starts)
    requires s < |plan.segments| && k < |Windows(req.grid, plan.segments[s].length)|
    ensures |RunOf(plan, stream, s)| == plan.segments[s].length
    ensures var parts := RowParts(plan.segments[s], WindowParts(req.Detects(), RunOf(plan, stream, s), req.grid));
            starts[s] + |parts| <= |all| && AddsPart(add, all, starts[s], parts, k)
  {
    SegmentWindows(plan, req.grid, all, starts, s, k);
    AddedRows(add, plan, req, stream, TallyOf(add, all, starts[s] + k), s, k);
    OneMoreWindow(add, all, starts[s] + k);
  }

  lemma {:induction false} SegmentRows(plan: Plan, req: Request, add: Adder, stream: seq<byte>,
                                       all: seq<Job>, starts: seq<nat>, s: nat)
    requires Scanning(plan, req, add, stream, all, starts) && s < |plan.segments|
    ensures |RunOf(plan, stream, s)| == plan.segments[s].length && starts[s + 1] <= |all| && starts[s] <= |all|
    ensures var parts := WindowParts(req.Detects(), RunOf(plan, stream, s), req.grid);
            TallyOf(add, all, starts[s + 1]).rows
            == TallyOf(add, all, starts[s]).rows + RowsOf(plan.segments[s], Flat(parts, |parts|))
  {
    SegmentAddsAll(plan, req, add, stream, all, starts, s);
    ReportsAdded(add, all, starts[s], plan.segments[s], WindowParts(req.Detects(), RunOf(plan, stream, s), req.grid));
  }

  lemma {:induction false} SegmentAddsAll(plan: Plan, req: Request, add: Adder, stream: seq<byte>,
                                          all: seq<Job>, starts: seq<nat>, s: nat)
    requires Scanning(plan, req, add, stream, all, starts) && s < |plan.segments|
    ensures |RunOf(plan, stream, s)| == plan.segments[s].length
    ensures var reports := WindowParts(req.Detects(), RunOf(plan, stream, s), req.grid);
            && starts[s + 1] == starts[s] + |reports| <= |all|
            && AddsReports(add, all, starts[s], plan.segments[s], reports)
  {
    var reports := WindowParts(req.Detects(), RunOf(plan, stream, s), req.grid);
    FirstWindow(req.grid, plan.segments[s].length);
    SegmentAdds(plan, req, add, stream, all, starts, s, 0);
    SegmentWindows(plan, req.grid, all, starts, s, 0);
    forall k: nat | k < |reports| ensures AddsPart(add, all, starts[s], RowParts(plan.segments[s], reports), k) {
      SegmentAdds(plan, req, add, stream, all, starts, s, k);
    }
  }

  ghost predicate AddsReports(add: Adder, all: seq<Job>, from: nat, s: Segment, reports: seq<seq<Report<Text>>>)
    requires from + |reports| <= |all|
  {
    forall k: nat {:trigger AddsPart(add, all, from, RowParts(s, reports), k)} ::
      k < |reports| ==> AddsPart(add, all, from, RowParts(s, reports), k)
  }

  lemma {:induction false} ReportsAdded(add: Adder, all: seq<Job>, from: nat, s: Segment,
                                        reports: seq<seq<Report<Text>>>)
    requires from + |reports| <= |all| && AddsReports(add, all, from, s, reports)
    ensures TallyOf(add, all, from + |reports|).rows
         == TallyOf(add, all, from).rows + RowsOf(s, Flat(reports, |reports|))
  {
    PartsAdded(add, all, from, RowParts(s, reports), |reports|);
    FlatRows(s, reports, |reports|);
  }

  /** The rows a segment owes: one for each string of its bytes, cut where its owning window ends,
      when what is left is long enough to be reported. */
  ghost function SegmentTable(plan: Plan, req: Request, stream: seq<byte>, s: nat): seq<Row>
    requires req.grid.Valid() && s < |plan.segments|
  {
    var run := RunOf(plan, stream, s);
    var strings := CutStringsOf(WantedOf(req.encodings, req.minLength), OwnerEnds(req.grid, |run|));
    RowsOf(plan.segments[s], WholeReports(strings, run))
  }

  /** The rows of what a segment's windows report, each string by the window that owns its start. */
  ghost function ScanTable(plan: Plan, req: Request, stream: seq<byte>, s: nat): seq<Row>
    requires req.grid.Valid() && s < |plan.segments|
  {
    var run := RunOf(plan, stream, s);
    RowsOf(plan.segments[s], ScanReports(req.Detects(), run, req.grid, Windows(req.grid, |run|)))
  }

  ghost function ScanTables(plan: Plan, req: Request, stream: seq<byte>): (r: seq<seq<Row>>)
    requires req.grid.Valid()
    ensures |r| == |plan.segments|
  {
    seq(|plan.segments|, s requires 0 <= s < |plan.segments| => ScanTable(plan, req, stream, s))
  }

  ghost function SegmentTables(plan: Plan, req: Request, stream: seq<byte>): (r: seq<seq<Row>>)
    requires req.grid.Valid()
    ensures |r| == |plan.segments|
  {
    seq(|plan.segments|, s requires 0 <= s < |plan.segments| => SegmentTable(plan, req, stream, s))
  }

  /** The table a complete scan owes: the rows of its first `s` segments, in order. */
  ghost function Table(plan: Plan, req: Request, stream: seq<byte>, s: nat): seq<Row>
    requires req.grid.Valid() && s <= |plan.segments|
  {
    Flat(SegmentTables(plan, req, stream), s)
  }

  /** The windows between two marks add the rows `tables[s]`. */
  ghost predicate AddsTable(add: Adder, all: seq<Job>, starts: seq<nat>, tables: seq<seq<Row>>, s: nat)
    requires s < |tables| < |starts|
  {
    && starts[s] <= |all| && starts[s + 1] <= |all|
    && TallyOf(add, all, starts[s + 1]).rows == TallyOf(add, all, starts[s]).rows + tables[s]
  }

  lemma {:induction false} TablesAdded(add: Adder, all: seq<Job>, starts: seq<nat>, tables: seq<seq<Row>>, s: nat)
    requires s <= |tables| < |starts| && starts[0] == 0
    requires forall i: nat {:trigger AddsTable(add, all, starts, tables, i)} ::
               i < |tables| ==> AddsTable(add, all, starts, tables, i)
    ensures starts[s] <= |all| && TallyOf(add, all, starts[s]).rows == Flat(tables, s)
  {
    if s > 0 {
      TablesAdded(add, all, starts, tables, s - 1);
      assert AddsTable(add, all, starts, tables, s - 1);
    }
  }

  lemma {:induction false} SegmentOwes(plan: Plan, req: Request, add: Adder, stream: seq<byte>,
                                       all: seq<Job>, starts: seq<nat>, s: nat)
    requires Scanning(plan, req, add, stream, all, starts) && s < |plan.segments|
    ensures AddsTable(add, all, starts, ScanTables(plan, req, stream), s)
  {
    SegmentRows(plan, req, add, stream, all, starts, s);
    RunIsScanned(req, RunOf(plan, stream, s));
  }

  /** Reading every window in full yields the rows that each segment's windows report. */
  lemma {:induction false} RowsScanned(plan: Plan, req: Request, add: Adder, stream: seq<byte>,
                                       all: seq<Job>, starts: seq<nat>, s: nat)
    requires Scanning(plan, req, add, stream, all, starts) && s <= |plan.segments|
    ensures starts[s] <= |all| && TallyOf(add, all, starts[s]).rows == Flat(ScanTables(plan, req, stream), s)
  {
    var tables := ScanTables(plan, req, stream);
    forall i: nat | i < |tables| ensures AddsTable(add, all, starts, tables, i) {
      SegmentOwes(plan, req, add, stream, all, starts, i);
    }
    TablesAdded(add, all, starts, tables, s);
  }

  lemma {:induction false} GuardedTables(plan: Plan, req: Request, stream: seq<byte>)
    requires req.Valid() && Guarded(WantedOf(req.encodings, req.minLength), req.grid)
    ensures ScanTables(plan, req, stream) == SegmentTables(plan, req, stream)
  {
    var x, y := ScanTables(plan, req, stream), SegmentTables(plan, req, stream);
    forall s | 0 <= s < |plan.segments| ensures x[s] == y[s] {
      StringsAreCut(WantedOf(req.encodings, req.minLength), RunOf(plan, stream, s), req.grid);
    }
  }

  /** Reading every window in full yields the table, for strings of any length. */
  lemma {:induction false} RowsAddUp(plan: Plan, req: Request, add: Adder, stream: seq<byte>,
                                     all: seq<Job>, starts: seq<nat>, s: nat)
    requires Scanning(plan, req, add, stream, all, starts) && s <= |plan.segments|
    requires Guarded(WantedOf(req.encodings, req.minLength), req.grid)
    ensures starts[s] <= |all| && TallyOf(add, all, starts[s]).rows == Table(plan, req, stream, s)
  {
    RowsScanned(plan, req, add, stream, all, starts, s);
    GuardedTables(plan, req, stream);
  }

  // ---- the producer ---------------------------------------------------------------------------------

  lemma {:induction false} LaterKept(plan: Plan, g: Grid, all: seq<Job>, more: seq<Job>, s: nat, from: nat, to: nat)
    requires g.Valid() && s < |plan.segments| && HasWindows(plan, g, all, s, from, to)
    ensures HasWindows(plan, g, all + more, s, from, to)
  {
    var ws := Windows(g, plan.segments[s].length);
    forall k | 0 <= k < |ws| ensures (all + more)[from + k] == Job(s, ws[k]) {
      assert (all + more)[from + k] == all[from + k];
    }
  }

  /** Every plan has its list of windows in scan order. */
  lemma {:induction false} ScanOrderExists(plan: Plan, g: Grid, n: nat) returns (all: seq<Job>, starts: seq<nat>)
    requires g.Valid() && n <= |plan.segments|
    ensures |starts| == n + 1 && starts[0] == 0 && starts[n] == |all|
    ensures forall s :: 0 <= s < n ==> HasWindows(plan, g, all, s, starts[s], starts[s + 1])
  {
    if n == 0 {
      all, starts := [], [0];
    } else {
      var before, old_starts := ScanOrderExists(plan, g, n - 1);
      var ws := Windows(g, plan.segments[n - 1].length);
      var more := seq(|ws|, i requires 0 <= i < |ws| => Job(n - 1, ws[i]));
      all, starts := before + more, old_starts + [|before| + |ws|];
      forall s | 0 <= s < n ensures HasWindows(plan, g, all, s, starts[s], starts[s + 1]) {
        if s < n - 1 { LaterKept(plan, g, before, more, s, old_starts[s], old_starts[s + 1]); }
      }
    }
  }

  ghost function Adding(plan: Plan, req: Request): (add: Adder)
    ensures Adds(add, plan, req)
  {
    (t: Tally, j: Job) => AddJob(plan, req, t, j)
  }

  /** What a window's read counts as scanned: all of it at the run's end, else no more than a step. */
  ghost function Share(plan: Plan, g: Grid): Job -> int {
    (j: Job) =>
      if j.segment >= |plan.segments| then 0
      else
        var seg := plan.segments[j.segment];
        var read := |plan.read(seg.vas + j.window, Min(g.bytes, seg.length - j.window))|;
        if j.window + g.bytes >= seg.length || read <= g.bytes - g.overlap then read else g.bytes - g.overlap
  }

  lemma {:induction false} JobShare(plan: Plan, req: Request, add: Adder, t: Tally, j: Job)
    requires Adds(add, plan, req) && j.segment < |plan.segments|
    ensures add(t, j).bytesScanned == t.bytesScanned + Share(plan, req.grid)(j)
  {
    assert add(t, j) == AddJob(plan, req, t, j);
    var g, seg := req.grid, plan.segments[j.segment];
    LastIsAtEnd(g, seg.length, j.window);
    assert DataOf(plan, g, j) == plan.read(seg.vas + j.window, Min(g.bytes, seg.length - j.window));
  }

  lemma {:induction false} LastIsAtEnd(g: Grid, length: int, w: int)
    ensures Last(g, length, w) <==> w + g.bytes >= length
  {
  }

  /** The bytes counted are the shares of the windows read. */
  lemma {:induction false} SharesAddUp(plan: Plan, req: Request, add: Adder, all: seq<Job>, n: nat)
    requires Adds(add, plan, req) && n <= |all| && forall i :: 0 <= i < |all| ==> all[i].segment < |plan.segments|
    ensures TallyOf(add, all, n).bytesScanned == Sum(all[..n], Share(plan, req.grid))
  {
    if n > 0 {
      SharesAddUp(plan, req, add, all, n - 1);
      JobShare(plan, req, add, TallyOf(add, all, n - 1), all[n - 1]);
      TakeNext(all, n - 1);
      SumSnoc(all[..n - 1], all[n - 1], Share(plan, req.grid));
    }
  }

  lemma {:induction false} AllShares(plan: Plan, req: Request, all: seq<Job>, starts: seq<nat>)
    requires InScanOrder(plan, req.grid, all, starts)
    ensures TallyOf(Adding(plan, req), all, |all|).bytesScanned == Sum(all, Share(plan, req.grid))
  {
    forall i: nat | i < |all| ensures all[i].segment < |plan.segments| {
      JobIsWindow(plan, req.grid, all, starts, |plan.segments|, i);
    }
    SharesAddUp(plan, req, Adding(plan, req), all, |all|);
    TakeAll(all);
  }

  /** Everything a finished scan of the windows `all` owes its caller. */
  ghost predicate Owes(plan: Plan, req: Request, all: seq<Job>, rows: seq<Row>, truncated: bool, complete: bool,
                       bytes: int)
    requires req.Valid()
  {
    var full := TallyOf(Adding(plan, req), all, |all|).rows;
    && rows == full[..Min(req.limit, |full|)]
    && (truncated <==> |full| > req.limit
                       || (all != [] && |TallyOf(Adding(plan, req), all, |all| - 1).rows| >= req.limit))
    && (complete <==> !truncated && AllFull(plan, req.grid, all))
    && (!truncated ==> rows == full && bytes == Sum(all, Share(plan, req.grid)))
    && (complete ==> bytes == CapturedBelow(plan, |plan.segments|))
  }

  lemma {:induction false} ScanOwes(plan: Plan, req: Request, all: seq<Job>, starts: seq<nat>, t: Tally, cut: bool)
    requires plan.Valid() && req.Valid() && InScanOrder(plan, req.grid, all, starts)
    requires var n := Stop(Adding(plan, req), req.limit, all, 0);
             && t == TallyOf(Adding(plan, req), all, n)
             && (cut <==> |t.rows| > req.limit || (|t.rows| == req.limit && n < |all|))
    ensures Owes(plan, req, all, t.rows[..Min(req.limit, |t.rows|)], cut, !cut && t.shortReads == 0, t.bytesScanned)
  {
    AddsKeepsRows(Adding(plan, req), plan, req);
    TruncatedExactly(Adding(plan, req), req.limit, all);
    AllBytesAddUp(plan, req, all, starts);
    AllShares(plan, req, all, starts);
  }

  lemma {:induction false} AllBytesAddUp(plan: Plan, req: Request, all: seq<Job>, starts: seq<nat>)
    requires plan.Valid() && req.Valid() && InScanOrder(plan, req.grid, all, starts)
    ensures TallyOf(Adding(plan, req), all, |all|).shortReads == 0 <==> AllFull(plan, req.grid, all)
    ensures AllFull(plan, req.grid, all) ==>
              TallyOf(Adding(plan, req), all, |all|).bytesScanned == CapturedBelow(plan, |plan.segments|)
  {
    NoShortReads(plan, req, Adding(plan, req), all, |all|);
    if AllFull(plan, req.grid, all) {
      BytesAddUp(plan, req, Adding(plan, req), all, starts, |plan.segments|);
    }
  }

  /** A table owed by the scan of a plan's windows in scan order. */
  ghost predicate IsTable(plan: Plan, req: Request, rows: seq<Row>, truncated: bool, complete: bool, bytes: int)
    requires req.Valid()
  {
    exists all, starts ::
      InScanOrder(plan, req.grid, all, starts) && Owes(plan, req, all, rows, truncated, complete, bytes)
  }

  /** For a complete table, the number of clipped strings that the scan of all windows counts. */
  ghost predicate IsClippedCount(plan: Plan, req: Request, complete: bool, clipped: int)
    requires req.Valid()
  {
    exists all, starts ::
      InScanOrder(plan, req.grid, all, starts)
      && (complete ==> clipped == TallyOf(Adding(plan, req), all, |all|).clipped)
  }

  /** The strings table: the rows up to the limit, whether the limit cut them, whether nothing was
      missed, and the coverage counters. */
  method StringsTable(plan: Plan, req: Request)
    returns (rows: seq<Row>, truncated: bool, complete: bool, bytesScanned: int, clippedStrings: int)
    requires plan.Valid() && req.Valid()
    ensures IsTable(plan, req, rows, truncated, complete, bytesScanned)
    ensures TellTrue(plan, req, rows) && (!truncated ==> TellAll(plan, req, rows))
    ensures IsClippedCount(plan, req, complete, clippedStrings)
  {
    var scan := new Scan();
    ghost var add := Adding(plan, req);
    ghost var all, starts := ScanOrderExists(plan, req.grid, |plan.segments|);
    scan.ScanPlan(plan, req, add, all, starts);
    rows := scan.rows[..Min(req.limit, |scan.rows|)];
    truncated := scan.truncated || |scan.rows| > req.limit;
    complete := !(truncated || scan.shortReads != 0);
    bytesScanned := scan.bytesScanned;
    clippedStrings := scan.clipped;
    ScanOwes(plan, req, all, starts, scan.View(), scan.truncated);
    AddsKeepsRows(add, plan, req);
    TruncatedExactly(add, req.limit, all);
    RowsTell(plan, req, add, all, starts);
    FirstRowsTell(plan, req, rows, TallyOf(add, all, |all|).rows);
  }

  /** The first rows of a table of true rows are true. */
  lemma {:induction false} FirstRowsTell(plan: Plan, req: Request, rows: seq<Row>, full: seq<Row>)
    requires req.grid.Valid() && rows <= full && TellTrue(plan, req, full)
    ensures TellTrue(plan, req, rows)
  {
  }

  /** A complete table holds, for each segment in order, the rows of what its windows report, and
      accounts for every captured byte once. */
  lemma {:induction false} CompleteScan(plan: Plan, req: Request, stream: seq<byte>,
                                        rows: seq<Row>, truncated: bool, complete: bool, bytes: int)
    requires plan.Valid() && req.Valid() && Faithful(plan, stream)
    requires IsTable(plan, req, rows, truncated, complete, bytes) && complete
    ensures rows == Flat(ScanTables(plan, req, stream), |plan.segments|)
    ensures bytes == CapturedBelow(plan, |plan.segments|)
  {
    var all, starts :| InScanOrder(plan, req.grid, all, starts)
                       && Owes(plan, req, all, rows, truncated, complete, bytes);
    RowsScanned(plan, req, Adding(plan, req), stream, all, starts, |plan.segments|);
  }

  /** When the guard hides tails, those rows are one for each string of the captured bytes as far as
      its owner sees it, when that is long enough. */
  lemma {:induction false} CompleteTable(plan: Plan, req: Request, stream: seq<byte>,
                                         rows: seq<Row>, truncated: bool, complete: bool, bytes: int)
    requires plan.Valid() && req.Valid() && Faithful(plan, stream)
    requires Guarded(WantedOf(req.encodings, req.minLength), req.grid)
    requires IsTable(plan, req, rows, truncated, complete, bytes) && complete
    ensures rows == Table(plan, req, stream, |plan.segments|)
    ensures bytes == CapturedBelow(plan, |plan.segments|)
  {
    CompleteScan(plan, req, stream, rows, truncated, complete, bytes);
    GuardedTables(plan, req, stream);
  }

  // ---- strings without a row ---------------------------------------------------------------------------

  /** Some row says that a string of this encoding starts at run offset `p` of segment `s`. */
  ghost predicate HasRow(rows: seq<Row>, s: Segment, p: int, wide: bool) {
    exists row {:trigger row in rows} :: row in rows && Says(row, s, p, wide, row.chars)
  }

  lemma {:induction false} RowIsReport(s: Segment, reports: seq<Report<Text>>, p: int, wide: bool)
    ensures HasRow(RowsOf(s, reports), s, p, wide) <==> Reported(reports, p, wide)
  {
    if i :| 0 <= i < |reports| && reports[i].offset == p && reports[i].found.wide == wide {
      ReportIsTold(s, reports, p, wide, reports[i].found.chars);
    }
    if row :| row in RowsOf(s, reports) && Says(row, s, p, wide, row.chars) {
      var r := RowOfReport(s, reports, row);
      assert Report(r.offset, r.found) in reports;
    }
  }

  /** A segment's rows include one for a string if and only if its owner sees enough of it. */
  lemma {:induction false} SegmentHasRow(plan: Plan, req: Request, stream: seq<byte>, s: nat, p: int, wide: bool)
    requires plan.Valid() && req.Valid() && s < |plan.segments|
    requires Looks(WantedOf(req.encodings, req.minLength), wide)
    requires TextAt(wide, req.minLength, RunOf(plan, stream, s), p) != []
    ensures HasRow(ScanTable(plan, req, stream, s), plan.segments[s], p, wide)
       <==> Fit(OwnerEnd(req.grid, |RunOf(plan, stream, s)|, p) - p, wide) >= req.minLength
  {
    var w, run := WantedOf(req.encodings, req.minLength), RunOf(plan, stream, s);
    StringReported(w, run, req.grid, p, wide);
    RowIsReport(plan.segments[s], ScanReports(StringsOf(w), run, req.grid, Windows(req.grid, |run|)), p, wide);
  }

  /** How much of a string its owner sees. */
  ghost function CharsSeen(run: seq<byte>, g: Grid, p: int, wide: bool): int
    requires g.Valid()
  {
    Min(Chars(run, p, wide), Fit(OwnerEnd(g, |run|, p) - p, wide))
  }

  /** Every string of every segment that is long enough has a row at its start, with the characters its
      owner sees. */
  ghost predicate RowForEveryString(plan: Plan, req: Request, stream: seq<byte>, rows: seq<Row>)
    requires req.grid.Valid()
  {
    forall s: nat, p, wide ::
      s < |plan.segments| && Looks(WantedOf(req.encodings, req.minLength), wide)
      && TextAt(wide, req.minLength, RunOf(plan, stream, s), p) != [] ==>
        Told(rows, plan.segments[s], p, wide, CharsSeen(RunOf(plan, stream, s), req.grid, p, wide))
  }

  /** When the shortest string fits in what an owner sees at a seam, a complete table has a row for
      every string, of any length. */
  lemma {:induction false} NoStringMissed(plan: Plan, req: Request, stream: seq<byte>, rows: seq<Row>, bytes: int)
    requires plan.Valid() && req.Valid() && Faithful(plan, stream)
    requires SeamFits(WantedOf(req.encodings, req.minLength), req.grid)
    requires IsTable(plan, req, rows, false, true, bytes)
    ensures RowForEveryString(plan, req, stream, rows)
  {
    var w := WantedOf(req.encodings, req.minLength);
    TableTells(plan, req, rows, true, bytes);
    forall s: nat, p, wide | s < |plan.segments| && Looks(w, wide)
                             && TextAt(wide, req.minLength, RunOf(plan, stream, s), p) != []
      ensures Told(rows, plan.segments[s], p, wide, CharsSeen(RunOf(plan, stream, s), req.grid, p, wide))
    {
      SeamSees(w, RunOf(plan, stream, s), req.grid, p, wide);
      StringIsTold(plan, req, stream, rows, s, p, wide);
    }
  }

  /** The rows of a table that the limit did not cut are those of all windows. */
  lemma {:induction false} TableTells(plan: Plan, req: Request, rows: seq<Row>, complete: bool, bytes: int)
    requires req.Valid() && IsTable(plan, req, rows, false, complete, bytes)
    ensures TellTrue(plan, req, rows) && TellAll(plan, req, rows)
  {
    var all, starts :| InScanOrder(plan, req.grid, all, starts) && Owes(plan, req, all, rows, false, complete, bytes);
    RowsTell(plan, req, Adding(plan, req), all, starts);
  }

  lemma {:induction false} StringIsTold(plan: Plan, req: Request, stream: seq<byte>, rows: seq<Row>, s: nat, p: int,
                                        wide: bool)
    requires plan.Valid() && req.Valid() && Faithful(plan, stream) && TellAll(plan, req, rows)
    requires s < |plan.segments| && Looks(WantedOf(req.encodings, req.minLength), wide)
    requires TextAt(wide, req.minLength, RunOf(plan, stream, s), p) != []
    requires Fit(OwnerEnd(req.grid, |RunOf(plan, stream, s)|, p) - p, wide) >= req.minLength
    ensures Told(rows, plan.segments[s], p, wide, CharsSeen(RunOf(plan, stream, s), req.grid, p, wide))
  {
    var run := RunOf(plan, stream, s);
    StartsInside(run, p, wide);
    var w := OwnerFrom(req.grid, |run|, 0, p);
    OwnerFindsString(plan, req, stream, s, w, p - w, p, wide);
  }

  /** The owner of a string's start finds as much of it as it sees. */
  lemma {:induction false} OwnerFindsString(plan: Plan, req: Request, stream: seq<byte>, s: nat, w: int, q: int, p: int,
                                            wide: bool)
    requires plan.Valid() && req.Valid() && Faithful(plan, stream)
    requires s < |plan.segments| && Looks(WantedOf(req.encodings, req.minLength), wide)
    requires 0 <= p < |RunOf(plan, stream, s)| && TextAt(wide, req.minLength, RunOf(plan, stream, s), p) != []
    requires Fit(OwnerEnd(req.grid, |RunOf(plan, stream, s)|, p) - p, wide) >= req.minLength
    requires w == OwnerFrom(req.grid, |RunOf(plan, stream, s)|, 0, p) && p == w + q
    ensures Finds(plan, req, s, w, q, wide, CharsSeen(RunOf(plan, stream, s), req.grid, p, wide))
  {
    var g, run := req.grid, RunOf(plan, stream, s);
    OwnerReads(plan, g, stream, s, p);
    OwnerBetweenSeams(g, |run|, w, q, p);
    StringInData(req, run, w, OwnerEnd(g, |run|, p), q, p, wide);
    FindsInData(plan, req, s, w, q, wide, CharsSeen(run, g, p, wide), Slice(run, w, OwnerEnd(g, |run|, p)));
  }

  lemma {:induction false} FindsInData(plan: Plan, req: Request, s: nat, w: int, q: int, wide: bool, chars: int,
                                       data: seq<byte>)
    requires s < |plan.segments| && req.grid.Valid() && w in Windows(req.grid, plan.segments[s].length)
    requires BetweenSeams(req.grid, plan.segments[s].length, w, q) && InData(req, data, q, wide, chars)
    requires data == plan.read(plan.segments[s].vas + w, Min(req.grid.bytes, plan.segments[s].length - w))
    ensures Finds(plan, req, s, w, q, wide, chars)
  {
  }

  lemma {:induction false} OwnerBetweenSeams(g: Grid, length: int, w: int, q: int, p: int)
    requires g.Valid() && 0 <= p < length && w == OwnerFrom(g, length, 0, p) && p == w + q
    ensures w in Windows(g, length) && 0 <= w && 0 <= q && BetweenSeams(g, length, w, q)
    ensures p < OwnerEnd(g, length, p) <= length
  {
    ExactlyOneOwner(g, length, p);
    OwnerSpan(g, length, p);
    OwnsBetweenSeams(g, length, w, q);
  }

  lemma {:induction false} StringInData(req: Request, run: seq<byte>, w: int, e: int, q: int, p: int, wide: bool)
    requires req.Valid() && p == w + q && 0 <= w && 0 <= q && p < e <= |run|
    requires Looks(WantedOf(req.encodings, req.minLength), wide)
    requires TextAt(wide, req.minLength, run, p) != [] && Fit(e - p, wide) >= req.minLength
    ensures InData(req, Slice(run, w, e), q, wide, Min(Chars(run, p, wide), Fit(e - p, wide)))
  {
    SliceIs(run, w, e);
    StartIsSeen(wide, req.minLength, run, w, e, p);
    CutFits(wide, req.minLength, run, e, p);
    assert q == p - w;
    TextIsSpelled(wide, req.minLength, run[w..e], q, Min(Chars(run, p, wide), Fit(e - p, wide)));
  }

  /** The owner of a position reads the run up to its end. */
  lemma {:induction false} OwnerReads(plan: Plan, g: Grid, stream: seq<byte>, s: nat, p: int)
    requires plan.Valid() && g.Valid() && Faithful(plan, stream)
    requires s < |plan.segments| && 0 <= p < |RunOf(plan, stream, s)|
    ensures |RunOf(plan, stream, s)| == plan.segments[s].length
    ensures var run := RunOf(plan, stream, s);
            var w := OwnerFrom(g, |run|, 0, p);
            plan.read(plan.segments[s].vas + w, Min(g.bytes, |run| - w)) == Slice(run, w, OwnerEnd(g, |run|, p))
  {
    RunIsWhole(plan, stream, s);
    var run := RunOf(plan, stream, s);
    var w := OwnerFrom(g, |run|, 0, p);
    ExactlyOneOwner(g, |run|, p);
    OwnerSpan(g, |run|, p);
    assert FaithfulRead(plan, stream, s, w, Want(g, |run|, w));
  }

  lemma {:induction false} RunIsWhole(plan: Plan, stream: seq<byte>, s: nat)
    requires plan.Valid() && Faithful(plan, stream) && s < |plan.segments|
    ensures |RunOf(plan, stream, s)| == plan.segments[s].length
  {
    assert FaithfulRead(plan, stream, s, 0, plan.segments[s].length);
  }

  // ---- what rows tell of the run -----------------------------------------------------------------------

  /** The row says of a string of segment `s` where it starts, and as much of it as its owner sees. */
  ghost predicate TellsString(plan: Plan, req: Request, stream: seq<byte>, row: Row, s: nat, p: int)
    requires req.grid.Valid() && s < |plan.segments|
  {
    var run := RunOf(plan, stream, s);
    && 0 <= p < |run| && StartsAt(run, p, row.wide) && row.chars >= req.minLength
    && Says(row, plan.segments[s], p, row.wide, CharsSeen(run, req.grid, p, row.wide))
  }

  /** When the guard hides tails, every true row tells a string of the captured bytes. */
  lemma {:induction false} RowTellsString(plan: Plan, req: Request, stream: seq<byte>, row: Row)
    requires plan.Valid() && req.Valid() && Faithful(plan, stream)
    requires Guarded(WantedOf(req.encodings, req.minLength), req.grid) && IsTrue(plan, req, row)
    ensures exists s: nat, p :: s < |plan.segments| && TellsString(plan, req, stream, row, s, p)
  {
    var s: nat, w, q :| s < |plan.segments| && Finds(plan, req, s, w, q, row.wide, row.chars)
                        && Says(row, plan.segments[s], w + q, row.wide, row.chars);
    FindIsString(plan, req, stream, s, w, q, w + q, row.wide, row.chars);
    assert TellsString(plan, req, stream, row, s, w + q);
  }

  lemma {:induction false} FindIsString(plan: Plan, req: Request, stream: seq<byte>, s: nat, w: int, q: int, p: int,
                                        wide: bool, chars: int)
    requires plan.Valid() && req.Valid() && Faithful(plan, stream)
    requires Guarded(WantedOf(req.encodings, req.minLength), req.grid)
    requires s < |plan.segments| && Finds(plan, req, s, w, q, wide, chars) && p == w + q
    ensures var run := RunOf(plan, stream, s);
            && 0 <= p < |run| && StartsAt(run, p, wide) && chars >= req.minLength
            && chars == CharsSeen(run, req.grid, p, wide)
  {
    var g, run := req.grid, RunOf(plan, stream, s);
    RunIsWhole(plan, stream, s);
    WindowReads(plan, g, stream, s, w);
    FindInRun(req, run, w, w + Want(g, |run|, w), q, p, wide, chars);
  }

  lemma {:induction false} WindowReads(plan: Plan, g: Grid, stream: seq<byte>, s: nat, w: int)
    requires plan.Valid() && g.Valid() && Faithful(plan, stream)
    requires s < |plan.segments| && |RunOf(plan, stream, s)| == plan.segments[s].length
    requires w in Windows(g, plan.segments[s].length)
    ensures var run := RunOf(plan, stream, s);
            plan.read(plan.segments[s].vas + w, Min(g.bytes, |run| - w)) == Slice(run, w, w + Want(g, |run|, w))
  {
    LaterWindows(g, plan.segments[s].length, 0, Windows(g, plan.segments[s].length), w);
    assert FaithfulRead(plan, stream, s, w, Want(g, plan.segments[s].length, w));
  }

  lemma {:induction false} FindInRun(req: Request, run: seq<byte>, w: int, e: int, q: int, p: int, wide: bool,
                                     chars: int)
    requires req.Valid() && w in Windows(req.grid, |run|) && e == w + Want(req.grid, |run|, w) && p == w + q
    requires Guarded(WantedOf(req.encodings, req.minLength), req.grid)
    requires BetweenSeams(req.grid, |run|, w, q) && InData(req, Slice(run, w, e), q, wide, chars)
    ensures 0 <= p < |run| && StartsAt(run, p, wide) && chars >= req.minLength
    ensures chars == CharsSeen(run, req.grid, p, wide)
  {
    WindowSize(run, req.grid, w);
    OwnPlace(req.grid, |run|, w, q, p, e);
    TextInRun(req, run, w, e, q, p, wide, chars);
  }

  /** A place between a window's seams is its own, and lies in what it reads. */
  lemma {:induction false} OwnPlace(g: Grid, length: int, w: int, q: int, p: int, e: int)
    requires g.Valid() && w in Windows(g, length) && BetweenSeams(g, length, w, q) && 0 <= q < Want(g, length, w)
    requires e == w + Want(g, length, w) && p == w + q
    ensures 0 <= w && p < e <= length && e - w <= g.bytes
    ensures OwnerEnd(g, length, p) == e && (w == 0 || g.Guard() <= q)
  {
    WindowShare(g, length, w);
    OwnsBetweenSeams(g, length, w, q);
    OnlyOwner(g, length, w, p);
  }

  lemma {:induction false} TextInRun(req: Request, run: seq<byte>, w: int, e: int, q: int, p: int, wide: bool,
                                     chars: int)
    requires req.Valid() && p == w + q && 0 <= w && 0 <= q && p < e <= |run| && e - w <= req.grid.bytes
    requires Guarded(WantedOf(req.encodings, req.minLength), req.grid) && (w == 0 || req.grid.Guard() <= q)
    requires InData(req, Slice(run, w, e), q, wide, chars)
    ensures StartsAt(run, p, wide) && chars == Min(Chars(run, p, wide), Fit(e - p, wide)) && chars >= req.minLength
  {
    SliceIs(run, w, e);
    TextIsSpelled(wide, req.minLength, run[w..e], q, chars);
    assert q == p - w;
    if w > 0 {
      TextSeen(WantedOf(req.encodings, req.minLength), wide, run, req.grid, w, e, p);
    }
    TextBelow(wide, req.minLength, run, e, p);
  }

  // ---- a dump of one run -------------------------------------------------------------------------------

  /** A dump that is one run, read faithfully. */
  ghost function OneRun(run: seq<byte>): Plan {
    Plan([Segment(0, |run|, 0, None, 0)], (o: int, n: int) => Slice(run, o, o + n))
  }

  lemma {:induction false} OneRunIsFaithful(run: seq<byte>)
    requires run != []
    ensures OneRun(run).Valid() && Faithful(OneRun(run), run) && RunOf(OneRun(run), run, 0) == run
  {
    OneRunIsRun(run);
    var plan := OneRun(run);
    forall s: nat, w, n | s < |plan.segments| && 0 <= w && 0 < n && w + n <= plan.segments[s].length
      ensures FaithfulRead(plan, run, s, w, n)
    {
      OneRunReads(run, w, n);
    }
    forall o, n | n >= 0 ensures |plan.read(o, n)| <= n { OneRunReads(run, o, n); }
  }

  lemma {:induction false} OneRunIsRun(run: seq<byte>)
    ensures RunOf(OneRun(run), run, 0) == run
  {
    SliceIs(run, 0, |run|);
    TakeAll(run);
  }

  lemma {:induction false} OneRunReads(run: seq<byte>, o: int, n: int)
    requires n >= 0
    ensures OneRun(run).read(o, n) == Slice(run, o, o + n) && |Slice(run, o, o + n)| <= n
  {
  }

  lemma {:induction false} OneRunReadsFull(run: seq<byte>, g: Grid, all: seq<Job>, starts: seq<nat>)
    requires run != [] && InScanOrder(OneRun(run), g, all, starts)
    ensures AllFull(OneRun(run), g, all)
  {
    var plan, ws := OneRun(run), Windows(g, |run|);
    OneRunIsFaithful(run);
    FirstWindow(g, |run|);
    SegmentWindows(plan, g, all, starts, 0, 0);
    forall i | 0 <= i < |all| ensures Full(plan, g, all[i]) {
      SegmentWindows(plan, g, all, starts, 0, i);
      WindowInRun(run, g, i);
    }
  }

  lemma {:induction false} WindowInRun(run: seq<byte>, g: Grid, i: nat)
    requires g.Valid() && i < |Windows(g, |run|)|
    ensures Full(OneRun(run), g, Job(0, Windows(g, |run|)[i]))
  {
    var w := Windows(g, |run|)[i];
    WindowShare(g, |run|, w);
    var plan, want := OneRun(run), Want(g, |run|, w);
    assert plan.segments[0].length == |run| && plan.segments[0].vas == 0;
    assert WantOf(plan, g, Job(0, w)) == want;
    assert DataOf(plan, g, Job(0, w)) == Slice(run, w, w + want);
    if want > 0 { assert Slice(run, w, w + want) == run[w..w + want]; }
  }

  /** With a limit above the rows it owes, such a dump's table is complete. */
  lemma {:induction false} OneRunTable(run: seq<byte>, req: Request)
    requires run != [] && req.Valid() && req.limit > |ScanTable(OneRun(run), req, run, 0)|
    ensures IsTable(OneRun(run), req, ScanTable(OneRun(run), req, run, 0), false, true, |run|)
  {
    var plan, add := OneRun(run), Adding(OneRun(run), req);
    OneRunIsFaithful(run);
    var all, starts := ScanOrderExists(plan, req.grid, 1);
    RowsScanned(plan, req, add, run, all, starts, 1);
    OneTable(plan, req, run);
    OneRunReadsFull(run, req.grid, all, starts);
    AddsKeepsRows(add, plan, req);
    if all != [] { RowsGrow(add, all, |all| - 1, |all|); }
    assert CapturedBelow(plan, 1) == CapturedBelow(plan, 0) + |run|;
    AllBytesAddUp(plan, req, all, starts);
    AllShares(plan, req, all, starts);
    var rows := ScanTable(plan, req, run, 0);
    TakeAll(rows);
    assert Owes(plan, req, all, rows, false, true, |run|);
  }

  lemma {:induction false} OneTable(plan: Plan, req: Request, stream: seq<byte>)
    requires req.grid.Valid() && |plan.segments| == 1
    ensures Flat(ScanTables(plan, req, stream), 1) == ScanTable(plan, req, stream, 0)
  {
    var tables := ScanTables(plan, req, stream);
    assert Flat(tables, 1) == Flat(tables, 0) + tables[0];
  }

  /** Complete tables of these encodings and sizes have a row for every string, whatever the dump
      and the limit. */
  ghost predicate CompleteTablesMissNothing(grid: Grid, encodings: seq<Encoding>, minLength: int)
    requires Request(grid, encodings, minLength, 1).Valid()
  {
    forall limit, plan: Plan, stream, rows, bytes ::
      limit >= 1 && plan.Valid() && Faithful(plan, stream)
      && IsTable(plan, Request(grid, encodings, minLength, limit), rows, false, true, bytes) ==>
        RowForEveryString(plan, Request(grid, encodings, minLength, limit), stream, rows)
  }

  /** The complete table of a one-run dump has no row for its string at `p`, nor counts it. */
  ghost predicate Lacks(run: seq<byte>, req: Request, p: int, wide: bool)
    requires req.Valid()
  {
    var table := ScanTable(OneRun(run), req, run, 0);
    && IsTable(OneRun(run), req, table, false, true, |run|)
    && TextAt(wide, req.minLength, run, p) != []
    && !HasRow(table, OneRun(run).segments[0], p, wide)
    && !StringCounted(wide, req.minLength, run, OwnerEnd(req.grid, |run|, p), p)
  }

  /** A table that says it is complete can lack a string: the one that starts at a seam and is
      longer than what its owner sees there. It is not counted as clipped either. */
  lemma {:induction false} CompleteTableLacks(req: Request, wide: bool)
    requires req.Valid()
    requires Looks(WantedOf(req.encodings, req.minLength), wide)
    requires req.minLength > Fit(req.grid.overlap - req.grid.overlap / 2 + 1, wide)
    requires var run := SeamRun(WantedOf(req.encodings, req.minLength), req.grid, wide);
             req.limit > |ScanTable(OneRun(run), req, run, 0)|
    ensures Lacks(SeamRun(WantedOf(req.encodings, req.minLength), req.grid, wide), req, Seam(req.grid), wide)
  {
    var w := WantedOf(req.encodings, req.minLength);
    SeamStringLost(w, req.grid, wide);
    RunLacks(SeamRun(w, req.grid, wide), req, Seam(req.grid), wide);
  }

  lemma {:induction false} RunLacks(run: seq<byte>, req: Request, p: int, wide: bool)
    requires req.Valid() && run != [] && req.limit > |ScanTable(OneRun(run), req, run, 0)|
    requires Looks(WantedOf(req.encodings, req.minLength), wide)
    requires TextAt(wide, req.minLength, run, p) != []
    requires Fit(OwnerEnd(req.grid, |run|, p) - p, wide) < req.minLength
    ensures Lacks(run, req, p, wide)
  {
    OneRunTable(run, req);
    RunHasRow(run, req, p, wide);
    NotCounted(wide, req.minLength, run, OwnerEnd(req.grid, |run|, p), p);
  }

  lemma {:induction false} RunHasRow(run: seq<byte>, req: Request, p: int, wide: bool)
    requires req.Valid() && run != [] && Looks(WantedOf(req.encodings, req.minLength), wide)
    requires TextAt(wide, req.minLength, run, p) != []
    ensures HasRow(ScanTable(OneRun(run), req, run, 0), OneRun(run).segments[0], p, wide)
       <==> Fit(OwnerEnd(req.grid, |run|, p) - p, wide) >= req.minLength
  {
    OneRunIsFaithful(run);
    SegmentHasRow(OneRun(run), req, run, 0, p, wide);
  }

  lemma {:induction false} NotCounted(wide: bool, minLength: int, run: seq<byte>, e: int, p: int)
    requires Fit(e - p, wide) < minLength
    ensures !StringCounted(wide, minLength, run, e, p)
  {
  }

  /** Complete tables have a row for every string if and only if the shortest string fits in what an
      owner sees at a seam. */
  lemma {:induction false} RowForEveryStringExactly(grid: Grid, encodings: seq<Encoding>, minLength: int)
    requires Request(grid, encodings, minLength, 1).Valid()
    ensures CompleteTablesMissNothing(grid, encodings, minLength) <==> SeamFits(WantedOf(encodings, minLength), grid)
  {
    var w := WantedOf(encodings, minLength);
    if SeamFits(w, grid) {
      forall limit, plan: Plan, stream, rows, bytes
        | limit >= 1 && plan.Valid() && Faithful(plan, stream)
          && IsTable(plan, Request(grid, encodings, minLength, limit), rows, false, true, bytes)
        ensures RowForEveryString(plan, Request(grid, encodings, minLength, limit), stream, rows)
      {
        NoStringMissed(plan, Request(grid, encodings, minLength, limit), stream, rows, bytes);
      }
    } else {
      var wide :| Looks(w, wide) && minLength > Fit(grid.overlap - grid.overlap / 2 + 1, wide);
      var run := SeamRun(w, grid, wide);
      var limit := |ScanTable(OneRun(run), Request(grid, encodings, minLength, 1), run, 0)| + 1;
      SameTable(run, grid, encodings, minLength, limit);
      CompleteTableLacks(Request(grid, encodings, minLength, limit), wide);
      LackIsMiss(run, Request(grid, encodings, minLength, limit), Seam(grid), wide);
    }
  }

  /** What a segment owes does not depend on the limit. */
  lemma {:induction false} SameTable(run: seq<byte>, grid: Grid, encodings: seq<Encoding>, minLength: int, limit: int)
    requires grid.Valid()
    ensures ScanTable(OneRun(run), Request(grid, encodings, minLength, limit), run, 0)
         == ScanTable(OneRun(run), Request(grid, encodings, minLength, 1), run, 0)
  {
  }

  lemma {:induction false} LackIsMiss(run: seq<byte>, req: Request, p: int, wide: bool)
    requires run != [] && req.Valid() && Lacks(run, req, p, wide) && Looks(WantedOf(req.encodings, req.minLength), wide)
    ensures !CompleteTablesMissNothing(req.grid, req.encodings, req.minLength)
  {
    var plan, table := OneRun(run), ScanTable(OneRun(run), req, run, 0);
    OneRunIsFaithful(run);
    assert !Told(table, plan.segments[0], p, wide, CharsSeen(run, req.grid, p, wide));
    assert !RowForEveryString(plan, req, run, table);
    assert req == Request(req.grid, req.encodings, req.minLength, req.limit);
  }
}
