/** What the rows of a strings table tell: which strings, how long, and where, in bytes and
    addresses, whatever functions compute them (app/tools_strings.py, core/strings.py). */
module StringRows {
  import opened Sequences
  import opened ScanPlan
  import opened ScanWindows
  import opened WindowedDetection
  import opened Strings
  import opened StringWindows
  import opened StringScan

  // ---- strings in bytes ---------------------------------------------------------------------------

  /** At `q` stands a printable byte, a tab or a line end; a wide character has a zero byte next. */
  ghost predicate Character(data: seq<byte>, q: int, wide: bool) {
    && 0 <= q && q + (if wide then 2 else 1) <= |data|
    && (' ' as int <= data[q] as int <= '~' as int || data[q] in {9, 10, 13})
    && (wide ==> data[q + 1] == 0)
  }

  /** The `i`-th place from `q` on holds a character. */
  ghost predicate Nth(data: seq<byte>, q: int, wide: bool, i: int) {
    Character(data, if wide then q + 2 * i else q + i, wide)
  }

  /** Precisely `chars` characters from `q` on: no character precedes and none follows. */
  ghost predicate Spells(data: seq<byte>, q: int, wide: bool, chars: int) {
    && (forall i {:trigger Nth(data, q, wide, i)} :: 0 <= i < chars ==> Nth(data, q, wide, i))
    && !Nth(data, q, wide, chars) && !Nth(data, q, wide, -1)
  }

  lemma {:induction false} CharsSpell(data: seq<byte>, q: int, wide: bool)
    ensures forall i {:trigger Nth(data, q, wide, i)} :: 0 <= i < Chars(data, q, wide) ==> Nth(data, q, wide, i)
    ensures !Nth(data, q, wide, Chars(data, q, wide))
    decreases |data| - q
  {
    if CharAt(data, q, wide) {
      var next := q + Width(wide);
      CharsSpell(data, next, wide);
      forall i | 0 <= i < Chars(data, q, wide) ensures Nth(data, q, wide, i) {
        if i > 0 { assert Nth(data, next, wide, i - 1); }
      }
    }
  }

  /** The text found at a position is the one that is spelled there. */
  lemma {:induction false} TextIsSpelled(wide: bool, minLength: int, data: seq<byte>, q: int, chars: int)
    requires minLength >= 1
    ensures TextAt(wide, minLength, data, q) == [Text(wide, chars)]
       <==> Spells(data, q, wide, chars) && chars >= minLength
  {
    var n := Chars(data, q, wide);
    CharsSpell(data, q, wide);
    assert Nth(data, q, wide, -1) <==> CharAt(data, q - Width(wide), wide);
    assert Nth(data, q, wide, 0) <==> CharAt(data, q, wide);
    if Spells(data, q, wide, chars) && chars >= minLength {
      assert chars < n ==> Nth(data, q, wide, chars);
      assert n < chars ==> Nth(data, q, wide, n);
    }
  }

  /** The bytes show a string of a wanted encoding and length at `q`. */
  ghost predicate Shows(req: Request, data: seq<byte>, q: int, wide: bool, chars: int) {
    Spells(data, q, wide, chars) && chars >= req.minLength && (if wide then Utf16le else Ascii) in req.encodings
  }

  lemma {:induction false} FoundIsText(w: Wanted, data: seq<byte>, q: int, found: Text)
    ensures found in StringsOf(w)(data, q)
       <==> Looks(w, found.wide) && TextAt(found.wide, w.minLength, data, q) == [found]
  {
  }

  lemma {:induction false} FoundIsShown(req: Request, data: seq<byte>, q: int, found: Text)
    requires req.Valid()
    ensures found in req.Detects()(data, q) <==> Shows(req, data, q, found.wide, found.chars)
  {
    FoundIsText(WantedOf(req.encodings, req.minLength), data, q, found);
    TextIsSpelled(found.wide, req.minLength, data, q, found.chars);
  }

  // ---- strings in windows -------------------------------------------------------------------------

  /** What reading the window at `w` of segment `s` returned shows a string at `q`, a place that the
      window reports. */
  ghost predicate Finds(plan: Plan, req: Request, s: nat, w: int, q: int, wide: bool, chars: int)
    requires s < |plan.segments| && req.grid.Valid()
  {
    var g, seg := req.grid, plan.segments[s];
    && w in Windows(g, seg.length) && BetweenSeams(g, seg.length, w, q)
    && InData(req, plan.read(seg.vas + w, Min(g.bytes, seg.length - w)), q, wide, chars)
  }

  ghost predicate InData(req: Request, data: seq<byte>, q: int, wide: bool, chars: int) {
    0 <= q < |data| && Shows(req, data, q, wide, chars)
  }

  /** The window at `w` reports the places from its lower seam, if another window comes before it, to
      its upper seam, if it does not reach the end. */
  ghost predicate BetweenSeams(g: Grid, length: int, w: int, q: int) {
    && (w == 0 || q >= g.overlap / 2)
    && (w + g.bytes >= length || q < g.bytes - g.overlap + g.overlap / 2)
  }

  lemma {:induction false} OwnsBetweenSeams(g: Grid, length: int, w: int, q: int)
    ensures Owns(g, q, w, Last(g, length, w)) <==> BetweenSeams(g, length, w, q)
  {
  }

  /** A window reports the strings it finds. */
  lemma {:induction false} ReportsFinds(plan: Plan, req: Request, s: nat, w: int, q: int, r: Report<Text>)
    requires req.Valid() && s < |plan.segments| && w in Windows(req.grid, plan.segments[s].length) && r.offset - w == q
    ensures r in ReportsOf(plan, req, Job(s, w)) <==> Finds(plan, req, s, w, q, r.found.wide, r.found.chars)
  {
    var data, last := DataOf(plan, req.grid, Job(s, w)), Last(req.grid, plan.segments[s].length, w);
    WindowOfJob(plan, req, s, w, data, last);
    DataFinds(req, data, w, q, last, r);
    OwnsBetweenSeams(req.grid, plan.segments[s].length, w, q);
    FindsIs(plan, req, s, w, q, r.found, data, last);
  }

  lemma {:induction false} FindsIs(plan: Plan, req: Request, s: nat, w: int, q: int, found: Text, data: seq<byte>,
                                   last: bool)
    requires s < |plan.segments| && req.grid.Valid() && w in Windows(req.grid, plan.segments[s].length)
    requires data == plan.read(plan.segments[s].vas + w, Min(req.grid.bytes, plan.segments[s].length - w))
    requires Owns(req.grid, q, w, last) <==> BetweenSeams(req.grid, plan.segments[s].length, w, q)
    ensures Finds(plan, req, s, w, q, found.wide, found.chars)
       <==> Owns(req.grid, q, w, last) && InData(req, data, q, found.wide, found.chars)
  {
  }

  lemma {:induction false} WindowOfJob(plan: Plan, req: Request, s: nat, w: int, data: seq<byte>, last: bool)
    requires s < |plan.segments| && last == Last(req.grid, plan.segments[s].length, w)
    requires data == DataOf(plan, req.grid, Job(s, w))
    ensures ReportsOf(plan, req, Job(s, w)) == WindowReports(req.Detects(), data, req.grid, w, last)
    ensures data == plan.read(plan.segments[s].vas + w, Min(req.grid.bytes, plan.segments[s].length - w))
  {
  }

  lemma {:induction false} DataFinds(req: Request, data: seq<byte>, w: int, q: int, last: bool, r: Report<Text>)
    requires req.Valid() && r.offset - w == q
    ensures r in WindowReports(req.Detects(), data, req.grid, w, last)
       <==> Owns(req.grid, q, w, last) && InData(req, data, q, r.found.wide, r.found.chars)
  {
    FoundIsShown(req, data, q, r.found);
    ShownIsReported(req, req.Detects(), data, w, q, last, r);
  }

  lemma {:induction false} ShownIsReported(req: Request, at: Detector<Text>, data: seq<byte>, w: int, q: int,
                                           last: bool, r: Report<Text>)
    requires r.offset - w == q && (r.found in at(data, q) <==> Shows(req, data, q, r.found.wide, r.found.chars))
    ensures r in WindowReports(at, data, req.grid, w, last)
       <==> Owns(req.grid, q, w, last) && InData(req, data, q, r.found.wide, r.found.chars)
  {
    DataHas(at, data, req.grid, w, last, r);
  }

  // ---- strings in rows ----------------------------------------------------------------------------

  /** Some row says so. */
  ghost predicate Told(rows: seq<Row>, s: Segment, p: int, wide: bool, chars: int) {
    exists row {:trigger Says(row, s, p, wide, chars)} :: row in rows && Says(row, s, p, wide, chars)
  }

  /** Some window finds what the row says. */
  ghost predicate IsTrue(plan: Plan, req: Request, row: Row)
    requires req.grid.Valid()
  {
    exists s: nat, w, q {:trigger Finds(plan, req, s, w, q, row.wide, row.chars)} ::
      s < |plan.segments| && Finds(plan, req, s, w, q, row.wide, row.chars)
      && Says(row, plan.segments[s], w + q, row.wide, row.chars)
  }

  /** Every row is true. */
  ghost predicate TellTrue(plan: Plan, req: Request, rows: seq<Row>)
    requires req.grid.Valid()
  {
    forall row {:trigger IsTrue(plan, req, row)} :: row in rows ==> IsTrue(plan, req, row)
  }

  /** Every string that a window finds has its row. */
  ghost predicate TellAll(plan: Plan, req: Request, rows: seq<Row>)
    requires req.grid.Valid()
  {
    forall s: nat, w, q, wide, chars {:trigger Finds(plan, req, s, w, q, wide, chars)} ::
      s < |plan.segments| && Finds(plan, req, s, w, q, wide, chars)
      ==> Told(rows, plan.segments[s], w + q, wide, chars)
  }

  /** The rows of reports are true, and say what is reported. */
  lemma {:induction false} RowOfReport(s: Segment, reports: seq<Report<Text>>, row: Row) returns (r: Report<Text>)
    requires row in RowsOf(s, reports)
    ensures r in reports && Says(row, s, r.offset, r.found.wide, r.found.chars)
  {
    RowsOfAt(s, reports);
    var i :| 0 <= i < |reports| && RowsOf(s, reports)[i] == row;
    r := reports[i];
    RowSays(s, r);
  }

  lemma {:induction false} ReportIsTold(s: Segment, reports: seq<Report<Text>>, p: int, wide: bool, chars: int)
    requires Report(p, Text(wide, chars)) in reports
    ensures Told(RowsOf(s, reports), s, p, wide, chars)
  {
    RowsOfAt(s, reports);
    var i :| 0 <= i < |reports| && reports[i] == Report(p, Text(wide, chars));
    RowSays(s, reports[i]);
    assert RowsOf(s, reports)[i] in RowsOf(s, reports);
  }

  // ---- strings in a scan --------------------------------------------------------------------------

  ghost function JobRows(plan: Plan, req: Request, all: seq<Job>): (r: seq<seq<Row>>)
    ensures |r| == |all| && forall i :: 0 <= i < |r| ==> r[i] == RowsOfJob(plan, req, all[i])
  {
    seq(|all|, i requires 0 <= i < |all| => RowsOfJob(plan, req, all[i]))
  }

  /** Window `from + k` adds the rows `parts[k]`. */
  ghost predicate AddsPart(add: Adder, all: seq<Job>, from: nat, parts: seq<seq<Row>>, k: nat)
    requires from + |parts| <= |all| && k < |parts|
  {
    TallyOf(add, all, from + k + 1).rows == TallyOf(add, all, from + k).rows + parts[k]
  }

  lemma {:induction false} PartsAdded(add: Adder, all: seq<Job>, from: nat, parts: seq<seq<Row>>, k: nat)
    requires from + |parts| <= |all| && k <= |parts|
    requires forall i: nat {:trigger AddsPart(add, all, from, parts, i)} ::
               i < |parts| ==> AddsPart(add, all, from, parts, i)
    ensures TallyOf(add, all, from + k).rows == TallyOf(add, all, from).rows + Flat(parts, k)
  {
    if k == 0 {
      AppendNothing(TallyOf(add, all, from).rows);
    } else {
      PartsAdded(add, all, from, parts, k - 1);
      assert AddsPart(add, all, from, parts, k - 1);
      Associative(TallyOf(add, all, from).rows, Flat(parts, k - 1), parts[k - 1]);
    }
  }

  /** The rows of a scan are those of its windows. */
  lemma {:induction false} RowsOfJobs(plan: Plan, req: Request, add: Adder, all: seq<Job>)
    requires Adds(add, plan, req)
    ensures TallyOf(add, all, |all|).rows == Flat(JobRows(plan, req, all), |all|)
  {
    var parts := JobRows(plan, req, all);
    forall i: nat | i < |parts| ensures AddsPart(add, all, 0, parts, i) { JobAdds(plan, req, add, all, parts, i); }
    PartsAdded(add, all, 0, parts, |all|);
    assert [] + Flat(parts, |all|) == Flat(parts, |all|);
  }

  lemma {:induction false} JobAdds(plan: Plan, req: Request, add: Adder, all: seq<Job>, parts: seq<seq<Row>>, i: nat)
    requires Adds(add, plan, req) && i < |parts| == |all| && parts[i] == RowsOfJob(plan, req, all[i])
    ensures AddsPart(add, all, 0, parts, i)
  {
    assert add(TallyOf(add, all, i), all[i]) == AddJob(plan, req, TallyOf(add, all, i), all[i]);
  }

  /** Every window in scan order is a window of some segment. */
  lemma {:induction false} JobIsWindow(plan: Plan, g: Grid, all: seq<Job>, starts: seq<nat>, n: nat, i: nat)
    requires InScanOrder(plan, g, all, starts) && n <= |plan.segments| && i < starts[n] && i < |all|
    ensures all[i].segment < |plan.segments| && all[i].window in Windows(g, plan.segments[all[i].segment].length)
  {
    var s := n - 1;
    assert HasWindows(plan, g, all, s, starts[s], starts[s + 1]);
    if i < starts[s] {
      JobIsWindow(plan, g, all, starts, s, i);
    } else {
      var ws := Windows(g, plan.segments[s].length);
      assert all[starts[s] + (i - starts[s])] == Job(s, ws[i - starts[s]]);
    }
  }

  lemma {:induction false} WindowIsJob(plan: Plan, g: Grid, all: seq<Job>, starts: seq<nat>, s: nat, w: int)
    returns (i: nat)
    requires InScanOrder(plan, g, all, starts) && s < |plan.segments| && w in Windows(g, plan.segments[s].length)
    ensures i < |all| && all[i] == Job(s, w)
  {
    assert HasWindows(plan, g, all, s, starts[s], starts[s + 1]);
    var ws := Windows(g, plan.segments[s].length);
    var k :| 0 <= k < |ws| && ws[k] == w;
    i := starts[s] + k;
  }

  /** The reports are those of what the window finds. */
  ghost predicate AreFinds(plan: Plan, req: Request, s: nat, w: int, reports: seq<Report<Text>>)
    requires s < |plan.segments| && req.grid.Valid()
  {
    forall r {:trigger r in reports} ::
      r in reports <==> Finds(plan, req, s, w, r.offset - w, r.found.wide, r.found.chars)
  }

  lemma {:induction false} ReportsAreFinds(plan: Plan, req: Request, s: nat, w: int)
    requires req.Valid() && s < |plan.segments| && w in Windows(req.grid, plan.segments[s].length)
    ensures AreFinds(plan, req, s, w, ReportsOf(plan, req, Job(s, w)))
  {
    forall r ensures r in ReportsOf(plan, req, Job(s, w))
      <==> Finds(plan, req, s, w, r.offset - w, r.found.wide, r.found.chars)
    {
      ReportsFinds(plan, req, s, w, r.offset - w, r);
    }
  }

  lemma {:induction false} ReportRowIsTrue(plan: Plan, req: Request, s: nat, w: int, reports: seq<Report<Text>>,
                                           row: Row)
    requires s < |plan.segments| && req.grid.Valid() && AreFinds(plan, req, s, w, reports)
    requires row in RowsOf(plan.segments[s], reports)
    ensures IsTrue(plan, req, row)
  {
    var r := RowOfReport(plan.segments[s], reports, row);
    var q := r.offset - w;
    assert Finds(plan, req, s, w, q, row.wide, row.chars);
    assert w + q == r.offset;
    assert Says(row, plan.segments[s], w + q, row.wide, row.chars);
  }

  lemma {:induction false} FindIsReported(plan: Plan, req: Request, s: nat, w: int, q: int, wide: bool, chars: int,
                                          reports: seq<Report<Text>>)
    requires s < |plan.segments| && req.grid.Valid() && AreFinds(plan, req, s, w, reports)
    requires Finds(plan, req, s, w, q, wide, chars)
    ensures Told(RowsOf(plan.segments[s], reports), plan.segments[s], w + q, wide, chars)
  {
    var r := Report(w + q, Text(wide, chars));
    assert r.offset - w == q;
    assert r in reports;
    ReportIsTold(plan.segments[s], reports, w + q, wide, chars);
  }

  /** These rows tell the strings of the window at `w` of segment `s`, and nothing untrue. */
  ghost predicate WindowTold(plan: Plan, req: Request, s: nat, w: int, found: seq<Row>)
    requires s < |plan.segments| && req.grid.Valid()
  {
    && TellTrue(plan, req, found)
    && forall q, wide, chars {:trigger Finds(plan, req, s, w, q, wide, chars)} ::
         Finds(plan, req, s, w, q, wide, chars) ==> Told(found, plan.segments[s], w + q, wide, chars)
  }

  lemma {:induction false} ReportsTell(plan: Plan, req: Request, s: nat, w: int, reports: seq<Report<Text>>)
    requires s < |plan.segments| && req.grid.Valid() && AreFinds(plan, req, s, w, reports)
    ensures WindowTold(plan, req, s, w, RowsOf(plan.segments[s], reports))
  {
    var found := RowsOf(plan.segments[s], reports);
    forall row | row in found ensures IsTrue(plan, req, row) { ReportRowIsTrue(plan, req, s, w, reports, row); }
    forall q, wide, chars | Finds(plan, req, s, w, q, wide, chars)
      ensures Told(found, plan.segments[s], w + q, wide, chars)
    {
      FindIsReported(plan, req, s, w, q, wide, chars, reports);
    }
  }

  lemma {:induction false} JobTells(plan: Plan, req: Request, s: nat, w: int)
    requires req.Valid() && s < |plan.segments| && w in Windows(req.grid, plan.segments[s].length)
    ensures WindowTold(plan, req, s, w, RowsOfJob(plan, req, Job(s, w)))
  {
    ReportsAreFinds(plan, req, s, w);
    ReportsTell(plan, req, s, w, ReportsOf(plan, req, Job(s, w)));
  }

  ghost predicate PartTold(plan: Plan, req: Request, j: Job, part: seq<Row>)
    requires req.grid.Valid()
  {
    j.segment < |plan.segments| && WindowTold(plan, req, j.segment, j.window, part)
  }

  ghost predicate PartsTold(plan: Plan, req: Request, all: seq<Job>, parts: seq<seq<Row>>)
    requires req.grid.Valid()
  {
    && |parts| == |all|
    && forall i {:trigger PartTold(plan, req, all[i], parts[i])} :: 0 <= i < |all| ==>
         PartTold(plan, req, all[i], parts[i])
  }

  lemma {:induction false} JobPartTold(plan: Plan, req: Request, all: seq<Job>, starts: seq<nat>, i: nat)
    requires req.Valid() && InScanOrder(plan, req.grid, all, starts) && i < |all|
    ensures PartTold(plan, req, all[i], RowsOfJob(plan, req, all[i]))
  {
    JobIsWindow(plan, req.grid, all, starts, |plan.segments|, i);
    JobTells(plan, req, all[i].segment, all[i].window);
    assert all[i] == Job(all[i].segment, all[i].window);
  }

  /** The rows of all windows tell the truth and all of it. */
  lemma {:induction false} RowsTell(plan: Plan, req: Request, add: Adder, all: seq<Job>, starts: seq<nat>)
    requires req.Valid() && Adds(add, plan, req) && InScanOrder(plan, req.grid, all, starts)
    ensures TellTrue(plan, req, TallyOf(add, all, |all|).rows)
    ensures TellAll(plan, req, TallyOf(add, all, |all|).rows)
  {
    RowsOfJobs(plan, req, add, all);
    JobRowsTold(plan, req, all, starts);
    PartsTell(plan, req, all, starts, JobRows(plan, req, all));
  }

  lemma {:induction false} JobRowsTold(plan: Plan, req: Request, all: seq<Job>, starts: seq<nat>)
    requires req.Valid() && InScanOrder(plan, req.grid, all, starts)
    ensures PartsTold(plan, req, all, JobRows(plan, req, all))
  {
    var parts := JobRows(plan, req, all);
    forall i | 0 <= i < |all| ensures PartTold(plan, req, all[i], parts[i]) {
      JobPartTold(plan, req, all, starts, i);
    }
  }

  lemma {:induction false} PartsTell(plan: Plan, req: Request, all: seq<Job>, starts: seq<nat>, parts: seq<seq<Row>>)
    requires req.grid.Valid() && InScanOrder(plan, req.grid, all, starts) && PartsTold(plan, req, all, parts)
    ensures TellTrue(plan, req, Flat(parts, |all|)) && TellAll(plan, req, Flat(parts, |all|))
  {
    var rows := Flat(parts, |all|);
    forall row | row in rows ensures IsTrue(plan, req, row) {
      var i := InFlat(parts, |all|, row);
      assert PartTold(plan, req, all[i], parts[i]);
    }
    forall s: nat, w, q, wide, chars | s < |plan.segments| && Finds(plan, req, s, w, q, wide, chars)
      ensures Told(rows, plan.segments[s], w + q, wide, chars)
    {
      var i := WindowIsJob(plan, req.grid, all, starts, s, w);
      assert PartTold(plan, req, all[i], parts[i]);
      FlatTold(parts, |all|, i, plan.segments[s], w + q, wide, chars);
    }
  }

  lemma {:induction false} FlatTold(parts: seq<seq<Row>>, n: nat, i: nat, s: Segment, p: int, wide: bool, chars: int)
    requires i < n <= |parts| && Told(parts[i], s, p, wide, chars)
    ensures Told(Flat(parts, n), s, p, wide, chars)
  {
    var row :| row in parts[i] && Says(row, s, p, wide, chars);
    FlatHas(parts, n, i, row);
  }
}
