/** The strings producer: every captured run read window by window, a row for every string, until
    a row limit stops the scan (app/tools_strings.py). */
module StringScan {
  import opened Sequences
  import opened ScanPlan
  import opened ScanWindows
  import opened WindowedDetection
  import opened Strings
  import opened StringWindows

  // ---- what a scan is asked to do -----------------------------------------------------------------

  /** A plan: the segments to scan and the source they are read from. `read(o, n)` is what reading
      `n` bytes at stream offset `o` returns: never padded, possibly short. */
  datatype Plan = Plan(segments: seq<Segment>, read: (int, int) -> seq<byte>) {
    ghost predicate Valid() {
      && (forall i :: 0 <= i < |segments| ==> segments[i].length > 0)
      && (forall o, n :: n >= 0 ==> |read(o, n)| <= n)
    }
  }

  datatype Request = Request(grid: Grid, encodings: seq<Encoding>, minLength: int, limit: int) {
    ghost predicate Valid() {
      && grid.Valid() && minLength >= 1 && limit >= 1
      && forall i, j :: 0 <= i < j < |encodings| ==> encodings[i] != encodings[j]
    }

    function Detects(): Detector<Text> { StringsOf(WantedOf(encodings, minLength)) }
  }

  // ---- rows ---------------------------------------------------------------------------------------

  datatype Row = Row(addr: int, va: Option<int>, vasOffset: int, wide: bool, chars: int, byteLength: int)

  /** The row of a string found at a run-relative offset. */
  function RowOf(s: Segment, r: Report<Text>): Row {
    Row(s.addr + r.offset, if s.va.None? then None else Some(s.va.value + r.offset), s.vas + r.offset,
        r.found.wide, r.found.chars, r.found.chars * Width(r.found.wide))
  }

  function RowsOf(s: Segment, reports: seq<Report<Text>>): seq<Row> {
    if reports == [] then []
    else RowsOf(s, reports[..|reports| - 1]) + [RowOf(s, reports[|reports| - 1])]
  }

  /** The row says: a string of this encoding and length starts `p` bytes into the segment. */
  ghost predicate Says(row: Row, s: Segment, p: int, wide: bool, chars: int) {
    && row.addr == s.addr + p && row.vasOffset == s.vas + p
    && (s.va.None? ==> row.va.None?) && (s.va.Some? ==> row.va == Some(s.va.value + p))
    && row.wide == wide && row.chars == chars && row.byteLength == (if wide then chars + chars else chars)
  }

  /** The rows say of each report, in order, what was found and where. */
  ghost predicate SayInOrder(rows: seq<Row>, s: Segment, reports: seq<Report<Text>>) {
    && |rows| == |reports|
    && forall i {:trigger SaysAt(rows, s, reports, i)} :: 0 <= i < |rows| ==> SaysAt(rows, s, reports, i)
  }

  ghost predicate SaysAt(rows: seq<Row>, s: Segment, reports: seq<Report<Text>>, i: nat)
    requires i < |rows| && i < |reports|
  {
    Says(rows[i], s, reports[i].offset, reports[i].found.wide, reports[i].found.chars)
  }

  lemma {:induction false} RowSays(s: Segment, r: Report<Text>)
    ensures Says(RowOf(s, r), s, r.offset, r.found.wide, r.found.chars)
  {
  }

  lemma {:induction false} RowsOfAt(s: Segment, reports: seq<Report<Text>>)
    ensures |RowsOf(s, reports)| == |reports|
    ensures forall i :: 0 <= i < |reports| ==> RowsOf(s, reports)[i] == RowOf(s, reports[i])
  {
    if reports != [] { RowsOfAt(s, reports[..|reports| - 1]); }
  }

  lemma {:induction false} RowsSay(s: Segment, reports: seq<Report<Text>>)
    ensures SayInOrder(RowsOf(s, reports), s, reports)
  {
    RowsOfAt(s, reports);
    forall i: nat | i < |reports| ensures SaysAt(RowsOf(s, reports), s, reports, i) {
      RowSays(s, reports[i]);
    }
  }

  /** Is this report of the window at `w` counted as clipped: does it reach the end of the bytes? */
  ghost function ReachesEnd(w: int, last: bool, size: int): Report<Text> -> int {
    (r: Report<Text>) => if !last && r.offset - w + r.found.chars * Width(r.found.wide) >= size then 1 else 0
  }

  /** The matches of a window that it owns, at run-relative offsets. */
  ghost function KeepOwned(g: Grid, w: int, last: bool, matches: seq<Report<Text>>): seq<Report<Text>> {
    if matches == [] then []
    else
      var m := matches[|matches| - 1];
      KeepOwned(g, w, last, matches[..|matches| - 1])
      + if Owns(g, m.offset, w, last) then [Report(w + m.offset, m.found)] else []
  }

  lemma {:induction false} KeepOwnedSnoc(g: Grid, w: int, last: bool, x: seq<Report<Text>>, m: Report<Text>)
    ensures KeepOwned(g, w, last, x + [m])
         == KeepOwned(g, w, last, x) + if Owns(g, m.offset, w, last) then [Report(w + m.offset, m.found)] else []
  {
    assert (x + [m])[..|x|] == x;
  }

  lemma {:induction false} TaggedMore(x: seq<Report<Text>>, found: seq<Text>, p: int)
    requires found != []
    ensures var n := |found| - 1;
            x + Tagged(found, p) == (x + Tagged(found[..n], p)) + [Report(p, found[n])]
  {
  }

  lemma {:induction false} KeepOwnedMore(g: Grid, w: int, last: bool, x: seq<Report<Text>>, p: int, found: seq<Text>)
    ensures KeepOwned(g, w, last, x + Tagged(found, p))
         == KeepOwned(g, w, last, x) + if Owns(g, p, w, last) then Tagged(found, w + p) else []
  {
    if found == [] {
      AppendNothing(x);
      AppendNothing(KeepOwned(g, w, last, x));
    } else {
      var n := |found| - 1;
      KeepOwnedMore(g, w, last, x, p, found[..n]);
      TaggedMore(x, found, p);
      KeepOwnedSnoc(g, w, last, x + Tagged(found[..n], p), Report(p, found[n]));
      TaggedMore(KeepOwned(g, w, last, x), found, w + p);
    }
  }

  lemma {:induction false} KeepOwnedAll(at: Detector<Text>, data: seq<byte>, g: Grid, w: int, last: bool, n: nat)
    ensures KeepOwned(g, w, last, MatchesBelow(at, data, n)) == OwnedBelow(at, data, g, w, last, n)
  {
    if n > 0 {
      var p := n - 1;
      KeepOwnedAll(at, data, g, w, last, p);
      KeepOwnedMore(g, w, last, MatchesBelow(at, data, p), p, at(data, p));
      assert MatchesBelow(at, data, n) == MatchesBelow(at, data, p) + Tagged(at(data, p), p);
      assert OwnedBelow(at, data, g, w, last, n)
          == OwnedBelow(at, data, g, w, last, p) + OwnedAt(at, data, g, w, last, p);
    }
  }

  // ---- the windows of a plan, in scan order ---------------------------------------------------------

  datatype Job = Job(segment: nat, window: int)

  /** `all` lists the windows of the plan's segments in order; those of segment `s` start at
      index `starts[s]`. */
  ghost predicate InScanOrder(plan: Plan, g: Grid, all: seq<Job>, starts: seq<nat>) {
    && g.Valid()
    && |starts| == |plan.segments| + 1 && starts[0] == 0 && starts[|plan.segments|] == |all|
    && forall s {:trigger HasWindows(plan, g, all, s, starts[s], starts[s + 1])} ::
         0 <= s < |plan.segments| ==> HasWindows(plan, g, all, s, starts[s], starts[s + 1])
  }

  ghost predicate HasWindows(plan: Plan, g: Grid, all: seq<Job>, s: nat, from: nat, to: nat)
    requires g.Valid() && s < |plan.segments|
  {
    var ws := Windows(g, plan.segments[s].length);
    && to == from + |ws| <= |all|
    && forall k :: 0 <= k < |ws| ==> all[from + k] == Job(s, ws[k])
  }

  ghost function WantOf(plan: Plan, g: Grid, j: Job): int {
    if j.segment < |plan.segments| then Want(g, plan.segments[j.segment].length, j.window) else 0
  }

  ghost predicate LastOf(plan: Plan, g: Grid, j: Job) {
    j.segment < |plan.segments| && Last(g, plan.segments[j.segment].length, j.window)
  }

  ghost function DataOf(plan: Plan, g: Grid, j: Job): seq<byte> {
    if j.segment < |plan.segments| then plan.read(plan.segments[j.segment].vas + j.window, WantOf(plan, g, j)) else []
  }

  ghost function ReportsOf(plan: Plan, req: Request, j: Job): seq<Report<Text>> {
    WindowReports(req.Detects(), DataOf(plan, req.grid, j), req.grid, j.window, LastOf(plan, req.grid, j))
  }

  ghost function RowsOfJob(plan: Plan, req: Request, j: Job): seq<Row> {
    if j.segment < |plan.segments| then RowsOf(plan.segments[j.segment], ReportsOf(plan, req, j)) else []
  }

  /** The rows and counters of a scan. */
  datatype Tally = Tally(rows: seq<Row>, bytesScanned: int, shortReads: int, clipped: int)

  /** What reading one more window adds. */
  ghost function AddJob(plan: Plan, req: Request, t: Tally, j: Job): Tally {
    var g, data := req.grid, DataOf(plan, req.grid, j);
    Tally(t.rows + RowsOfJob(plan, req, j),
          t.bytesScanned + OwnedBytes(g, |data|, LastOf(plan, g, j)),
          t.shortReads + (if |data| < WantOf(plan, g, j) then 1 else 0),
          t.clipped + Sum(ReportsOf(plan, req, j), ReachesEnd(j.window, LastOf(plan, g, j), |data|)))
  }

  type Adder = (Tally, Job) -> Tally

  /** `add` adds up windows as scanning the plan does. */
  ghost predicate Adds(add: Adder, plan: Plan, req: Request) {
    forall t: Tally, j: Job {:trigger AddJob(plan, req, t, j)} :: add(t, j) == AddJob(plan, req, t, j)
  }

  lemma {:induction false} Added(add: Adder, plan: Plan, req: Request, t: Tally, j: Job, data: seq<byte>, last: bool,
                                 reports: seq<Report<Text>>)
    requires Adds(add, plan, req) && j.segment < |plan.segments|
    requires last == Last(req.grid, plan.segments[j.segment].length, j.window)
    requires data == plan.read(plan.segments[j.segment].vas + j.window,
                               Want(req.grid, plan.segments[j.segment].length, j.window))
    requires reports == WindowReports(req.Detects(), data, req.grid, j.window, last)
    ensures add(t, j).rows == t.rows + RowsOf(plan.segments[j.segment], reports)
    ensures add(t, j).bytesScanned == t.bytesScanned + OwnedBytes(req.grid, |data|, last)
    ensures add(t, j).shortReads
         == t.shortReads + if |data| < Want(req.grid, plan.segments[j.segment].length, j.window) then 1 else 0
    ensures add(t, j).clipped == t.clipped + Sum(reports, ReachesEnd(j.window, last, |data|))
  {
    assert add(t, j) == AddJob(plan, req, t, j);
  }

  /** The rows and counters after the first `n` windows. */
  ghost function TallyOf(add: Adder, all: seq<Job>, n: nat): Tally
    requires n <= |all|
  {
    if n == 0 then Tally([], 0, 0, 0) else add(TallyOf(add, all, n - 1), all[n - 1])
  }

  /** How many windows are read before the scan stops: it goes on while the limit is not met. */
  ghost function Stop(add: Adder, limit: int, all: seq<Job>, n: nat): (r: nat)
    requires n <= |all|
    ensures n <= r <= |all|
    decreases |all| - n
  {
    if n == |all| then n
    else if |TallyOf(add, all, n + 1).rows| >= limit then n + 1
    else Stop(add, limit, all, n + 1)
  }

  /** Of the windows of a segment only the last one reports `last`; it is the plan's last window
      exactly when the segment is the plan's last one. */
  lemma {:induction false} SegmentWindows(plan: Plan, g: Grid, all: seq<Job>, starts: seq<nat>, s: nat, k: nat)
    requires plan.Valid() && InScanOrder(plan, g, all, starts) && s < |plan.segments|
    requires k < |Windows(g, plan.segments[s].length)|
    ensures var ws := Windows(g, plan.segments[s].length);
            && starts[s] + k < |all| && all[starts[s] + k] == Job(s, ws[k])
            && starts[s + 1] == starts[s] + |ws| <= |all|
            && (Last(g, plan.segments[s].length, ws[k]) <==> k == |ws| - 1)
            && (starts[s] + k + 1 == |all| <==> k == |ws| - 1 && s + 1 == |plan.segments|)
  {
    assert HasWindows(plan, g, all, s, starts[s], starts[s + 1]);
    WindowsTile(g, plan.segments[s].length);
    if s + 1 < |plan.segments| {
      var n := s + 1;
      assert HasWindows(plan, g, all, n, starts[n], starts[n + 1]);
      WindowsTile(g, plan.segments[s + 1].length);
    }
  }

  // ---- the scan -------------------------------------------------------------------------------------

  class Scan {
    var rows: seq<Row>
    var bytesScanned: int
    var runsScanned: int
    var shortReads: int
    var clipped: int
    var truncated: bool

    constructor ()
      ensures rows == [] && bytesScanned == runsScanned == shortReads == clipped == 0 && !truncated
    {
      rows, bytesScanned, runsScanned, shortReads, clipped, truncated := [], 0, 0, 0, 0, false;
    }

    ghost function View(): Tally
      reads this
    {
      Tally(rows, bytesScanned, shortReads, clipped)
    }

    /** The scan has read the first `n` windows of `all` and not met the limit yet. */
    ghost predicate Running(add: Adder, limit: int, all: seq<Job>, n: nat)
      requires n <= |all|
      reads this
    {
      && View() == TallyOf(add, all, n) && |rows| < limit && !truncated
      && Stop(add, limit, all, 0) == Stop(add, limit, all, n)
    }

    /** The scan has ended, at the end of `all` or at the first window that met the limit. */
    ghost predicate Stopped(add: Adder, limit: int, all: seq<Job>)
      reads this
    {
      var n := Stop(add, limit, all, 0);
      && View() == TallyOf(add, all, n)
      && (truncated <==> |rows| > limit || (|rows| == limit && n < |all|))
    }

    /** The rows of one window, the matches it does not own dropped and the ones that reach its
        end counted. */
    method WindowRows(s: Segment, req: Request, window: int, data: seq<byte>, last: bool) returns (found: seq<Row>)
      requires req.Valid()
      modifies this`clipped
      ensures var reports := WindowReports(req.Detects(), data, req.grid, window, last);
              found == RowsOf(s, reports) && clipped == old(clipped) + Sum(reports, ReachesEnd(window, last, |data|))
      ensures SayInOrder(found, s, WindowReports(req.Detects(), data, req.grid, window, last))
    {
      var matches := Matches(data, req.encodings, req.minLength);
      found := [];
      ghost var kept: seq<Report<Text>> := [];
      for i := 0 to |matches|
        invariant kept == KeepOwned(req.grid, window, last, matches[..i])
        invariant found == RowsOf(s, kept)
        invariant clipped == old(clipped) + Sum(kept, ReachesEnd(window, last, |data|))
      {
        var m := matches[i];
        TakeNext(matches, i);
        KeepOwnedSnoc(req.grid, window, last, matches[..i], m);
        if !Owns(req.grid, m.offset, window, last) {
          AppendNothing(kept);
          continue;
        }
        var end := m.offset + m.found.chars * Width(m.found.wide);
        clipped := clipped + if !last && end >= |data| then 1 else 0;
        SumSnoc(kept, Report(window + m.offset, m.found), ReachesEnd(window, last, |data|));
        kept := kept + [Report(window + m.offset, m.found)];
        found := found + [RowOf(s, Report(window + m.offset, m.found))];
        assert kept[..|kept| - 1] == KeepOwned(req.grid, window, last, matches[..i]);
      }
      TakeAll(matches);
      KeepOwnedAll(req.Detects(), data, req.grid, window, last, |data|);
      RowsSay(s, kept);
    }

    /** Reads and scans one window: what came back is scanned as it is, never padded. */
    method ScanWindow(plan: Plan, s: nat, req: Request, window: int, ghost add: Adder) returns (last: bool)
      requires req.Valid() && s < |plan.segments| && Adds(add, plan, req)
      modifies this`rows, this`bytesScanned, this`shortReads, this`clipped
      ensures View() == add(old(View()), Job(s, window))
      ensures last == Last(req.grid, plan.segments[s].length, window)
    {
      var seg := plan.segments[s];
      var want := Want(req.grid, seg.length, window);
      last := Last(req.grid, seg.length, window);
      var data := plan.read(seg.vas + window, want);
      shortReads := shortReads + if |data| < want then 1 else 0;
      ghost var reports := WindowReports(req.Detects(), data, req.grid, window, last);
      Added(add, plan, req, old(View()), Job(s, window), data, last, reports);
      var found := WindowRows(seg, req, window, data, last);
      rows := rows + found;
      bytesScanned := bytesScanned + OwnedBytes(req.grid, |data|, last);
    }

    /** Scans one captured run; false once the row limit stopped the scan. */
    method ScanSegment(plan: Plan, s: nat, req: Request, ghost add: Adder, ghost all: seq<Job>, ghost starts: seq<nat>)
      returns (more: bool)
      requires plan.Valid() && req.Valid() && s < |plan.segments| && Adds(add, plan, req)
      requires InScanOrder(plan, req.grid, all, starts) && starts[s] <= |all|
      requires Running(add, req.limit, all, starts[s])
      modifies this
      ensures runsScanned == old(runsScanned) + 1
      ensures starts[s + 1] <= |all| && (more ==> Running(add, req.limit, all, starts[s + 1]))
      ensures !more ==> Stopped(add, req.limit, all) && |rows| >= req.limit
    {
      var seg := plan.segments[s];
      runsScanned := runsScanned + 1;
      var ws := Windows(req.grid, seg.length);
      WindowsTile(req.grid, seg.length);
      SegmentWindows(plan, req.grid, all, starts, s, |ws| - 1);
      for k := 0 to |ws|
        invariant Running(add, req.limit, all, starts[s] + k)
        invariant runsScanned == old(runsScanned) + 1
      {
        SegmentWindows(plan, req.grid, all, starts, s, k);
        var last := ScanWindow(plan, s, req, ws[k], add);
        if |rows| >= req.limit {
          truncated := |rows| > req.limit || !(last && s == |plan.segments| - 1);
          return false;
        }
      }
      return true;
    }

    /** Scans the segments in order until the row limit stops it. */
    method ScanPlan(plan: Plan, req: Request, ghost add: Adder, ghost all: seq<Job>, ghost starts: seq<nat>)
      requires plan.Valid() && req.Valid() && Adds(add, plan, req) && InScanOrder(plan, req.grid, all, starts)
      requires View() == Tally([], 0, 0, 0) && runsScanned == 0 && !truncated
      modifies this
      ensures Stopped(add, req.limit, all)
      ensures runsScanned <= |plan.segments| && (|rows| < req.limit ==> runsScanned == |plan.segments|)
    {
      for s := 0 to |plan.segments|
        invariant starts[s] <= |all| && Running(add, req.limit, all, starts[s]) && runsScanned == s
      {
        var more := ScanSegment(plan, s, req, add, all, starts);
        if !more {
          return;
        }
      }
    }
  }
}
