/** A requested window resolved into aligned segments and gaps that partition it
    (engine/consensus.py, app/tools_consensus.py). */
module WindowProjection {
  import opened Sequences
  import opened LabelledRuns

  /** A stretch of the window in correspondence across dumps; `layoutRow` -1 is a flat
      coordinate, whose slab offset is every dump's offset. */
  datatype AlignedSegment = AlignedSegment(windowOffset: int, length: int, slabOffset: int, layoutRow: int,
                                           vas: seq<int>) {
    predicate Has(i: int) { windowOffset <= i < windowOffset + length }
  }

  datatype Projection = Projection(length: nat, segments: seq<AlignedSegment>, gaps: seq<(int, int)>, classes: seq<int>)

  // ---- the partition ----------------------------------------------------------------------------------

  /** The projection's spans; a segment carries the tag true, a gap false. */
  function Spans(segments: seq<AlignedSegment>, gaps: seq<(int, int)>): (r: seq<Run<bool>>)
    ensures |r| == |segments| + |gaps|
    ensures forall k :: 0 <= k < |segments| ==> r[k] == Run(segments[k].windowOffset, segments[k].length, true)
    ensures forall k :: 0 <= k < |gaps| ==> r[|segments| + k] == Run(gaps[k].0, gaps[k].1, false)
  {
    seq(|segments|, k requires 0 <= k < |segments| => Run(segments[k].windowOffset, segments[k].length, true))
    + seq(|gaps|, k requires 0 <= k < |gaps| => Run(gaps[k].0, gaps[k].1, false))
  }

  /** Non-empty spans that cover each index of `[0, length)` once and nothing else. */
  ghost predicate Tiles(spans: seq<Run<bool>>, length: int) {
    Positive(spans) && forall i :: Count(spans, i, None) == if 0 <= i < length then 1 else 0
  }

  ghost predicate Partition(p: Projection) {
    Tiles(Spans(p.segments, p.gaps), p.length) && |p.classes| == p.length
  }

  predicate SpanLe(x: Run<bool>, y: Run<bool>) { x.start < y.start || (x.start == y.start && x.len <= y.len) }

  /** The check every projection makes of itself when it is built. */
  method CheckPartition(p: Projection) returns (ok: bool)
    ensures ok <==> Partition(p)
  {
    var spans, length := Spans(p.segments, p.gaps), p.length;
    var ordered := Sort(spans, SpanLe);
    SortSorts(spans, SpanLe);
    TilesSorted(spans, ordered, length);
    var cursor := 0;
    for k := 0 to |ordered|
      invariant cursor >= 0 && Tiles(ordered[..k], cursor)
    {
      if ordered[k].start != cursor || ordered[k].len <= 0 {
        NextStartsAtCursor(ordered, k, cursor, length);
        return false;
      }
      OneMoreSpan(ordered, k, cursor);
      cursor := cursor + ordered[k].len;
    }
    TakeAll(ordered);
    SameExtent(ordered, cursor, length);
    return cursor == length && |p.classes| == length;
  }

  lemma {:induction false} TilesSorted(spans: seq<Run<bool>>, ordered: seq<Run<bool>>, length: int)
    requires ordered == Sort(spans, SpanLe)
    ensures Tiles(ordered, length) <==> Tiles(spans, length)
  {
    SameElements(ordered, spans);
    forall i ensures Count(ordered, i, None) == Count(spans, i, None) {
      SumSort(spans, SpanLe, Hits(i, None));
    }
    assert Positive(ordered) ==> Positive(spans) by {
      forall k | 0 <= k < |spans| && Positive(ordered) ensures spans[k].len > 0 {
        assert spans[k] in ordered;
      }
    }
    assert Positive(spans) ==> Positive(ordered) by {
      forall k | 0 <= k < |ordered| && Positive(spans) ensures ordered[k].len > 0 {
        assert ordered[k] in spans;
      }
    }
  }

  lemma {:induction false} OneMoreSpan(ordered: seq<Run<bool>>, k: nat, cursor: int)
    requires k < |ordered| && cursor >= 0 && Tiles(ordered[..k], cursor)
    requires ordered[k].start == cursor && ordered[k].len > 0
    ensures Tiles(ordered[..k + 1], cursor + ordered[k].len)
  {
    TakeNext(ordered, k);
    var next, after := ordered[..k + 1], cursor + ordered[k].len;
    forall i ensures Count(next, i, None) == if 0 <= i < after then 1 else 0 {
      SumSnoc(ordered[..k], ordered[k], Hits(i, None));
      assert Count(ordered[..k], i, None) == if 0 <= i < cursor then 1 else 0;
    }
  }

  lemma {:induction false} SameExtent(ordered: seq<Run<bool>>, m: int, n: int)
    requires m >= 0 && n >= 0 && Tiles(ordered, m)
    ensures Tiles(ordered, n) <==> m == n
  {
    if Tiles(ordered, n) {
      assert Count(ordered, Min(m, n), None) == if 0 <= Min(m, n) < m then 1 else 0;
      assert Count(ordered, Min(m, n), None) == if 0 <= Min(m, n) < n then 1 else 0;
    }
  }

  /** In a partition sorted by start, each span begins where the ones before it end. */
  lemma {:induction false} NextStartsAtCursor(ordered: seq<Run<bool>>, k: nat, cursor: int, length: int)
    requires k < |ordered| && SortedBy(ordered, SpanLe) && cursor >= 0 && Tiles(ordered[..k], cursor)
    ensures Tiles(ordered, length) ==> ordered[k].start == cursor && ordered[k].len > 0
  {
    if Tiles(ordered, length) {
      assert ordered[k].len > 0;
      NotBelowCursor(ordered, k, cursor, length);
      NotAboveCursor(ordered, k, cursor, length);
    }
  }

  lemma {:induction false} SplitCount(ordered: seq<Run<bool>>, k: nat, i: int)
    requires k <= |ordered|
    ensures Count(ordered, i, None) == Count(ordered[..k], i, None) + Count(ordered[k..], i, None)
  {
    assert ordered == ordered[..k] + ordered[k..];
    SumAppend(ordered[..k], ordered[k..], Hits(i, None));
  }

  lemma {:induction false} NotBelowCursor(ordered: seq<Run<bool>>, k: nat, cursor: int, length: int)
    requires k < |ordered| && cursor >= 0 && Tiles(ordered[..k], cursor) && Tiles(ordered, length) && ordered[k].len > 0
    ensures cursor <= ordered[k].start && 0 <= ordered[k].start < length
  {
    var start := ordered[k].start;
    SplitCount(ordered, k, start);
    assert ordered[k..][0] == ordered[k];
    CountAtLeastOne(ordered[k..], 0, start);
    CountNonNegative(ordered[..k], start, None);
    assert Count(ordered, start, None) == if 0 <= start < length then 1 else 0;
    assert Count(ordered[..k], start, None) == if 0 <= start < cursor then 1 else 0;
  }

  lemma {:induction false} NotAboveCursor(ordered: seq<Run<bool>>, k: nat, cursor: int, length: int)
    requires k < |ordered| && SortedBy(ordered, SpanLe) && cursor >= 0 && Tiles(ordered[..k], cursor)
             && Tiles(ordered, length)
    requires 0 <= ordered[k].start < length
    ensures ordered[k].start <= cursor
  {
    var start, rest := ordered[k].start, ordered[k..];
    SplitCount(ordered, k, cursor);
    assert Count(ordered[..k], cursor, None) == if 0 <= cursor < cursor then 1 else 0;
    forall j | 0 <= j < |rest| ensures start <= rest[j].start {
      assert rest[j] == ordered[k + j];
      if j > 0 { assert SpanLe(ordered[k], ordered[k + j]); }
    }
    if start > cursor { StartsAbove(rest, start, cursor); }
  }

  lemma {:induction false} StartsAbove(spans: seq<Run<bool>>, start: int, i: int)
    requires i < start && forall j :: 0 <= j < |spans| ==> start <= spans[j].start
    ensures Count(spans, i, None) == 0
  {
    if spans != [] { StartsAbove(spans[..|spans| - 1], start, i); }
  }

  /** Two different spans of a partition share no index, and none leaves the window. */
  lemma {:induction false} SpansApart(spans: seq<Run<bool>>, length: int, j: nat, k: nat, i: int)
    requires Tiles(spans, length) && j < |spans| && k < |spans| && spans[j].Covers(i)
    ensures 0 <= i < length
    ensures spans[k].Covers(i) ==> j == k
  {
    CountAtLeastOne(spans, j, i);
    if spans[k].Covers(i) && j != k { CountTwo(spans, if j < k then j else k, if j < k then k else j, i); }
  }

  ghost predicate InGap(p: Projection, i: int) {
    exists k :: 0 <= k < |p.gaps| && p.gaps[k].0 <= i < p.gaps[k].0 + p.gaps[k].1
  }

  ghost predicate InSegment(p: Projection, i: int) {
    exists k :: 0 <= k < |p.segments| && p.segments[k].Has(i)
  }

  /** Each index of the window is in a gap or in a segment, never both; none outside is in either. */
  lemma {:induction false} GapXorSegment(p: Projection, i: int)
    requires Partition(p)
    ensures 0 <= i < p.length ==> (InGap(p, i) <==> !InSegment(p, i))
    ensures InGap(p, i) || InSegment(p, i) ==> 0 <= i < p.length
  {
    if 0 <= i < p.length { InSomeSpan(p, i); }
    if InSegment(p, i) { SegmentOnly(p, i); }
    if InGap(p, i) { GapInside(p, i); }
  }

  lemma {:induction false} SegmentOnly(p: Projection, i: int)
    requires Partition(p) && InSegment(p, i)
    ensures 0 <= i < p.length && !InGap(p, i)
  {
    var k: nat :| k < |p.segments| && p.segments[k].Has(i);
    SpansApart(Spans(p.segments, p.gaps), p.length, k, k, i);
    if j: nat :| j < |p.gaps| && p.gaps[j].0 <= i < p.gaps[j].0 + p.gaps[j].1 {
      SpansApart(Spans(p.segments, p.gaps), p.length, k, |p.segments| + j, i);
    }
  }

  lemma {:induction false} GapInside(p: Projection, i: int)
    requires Partition(p) && InGap(p, i)
    ensures 0 <= i < p.length
  {
    var j: nat :| j < |p.gaps| && p.gaps[j].0 <= i < p.gaps[j].0 + p.gaps[j].1;
    SpansApart(Spans(p.segments, p.gaps), p.length, |p.segments| + j, |p.segments| + j, i);
  }

  lemma {:induction false} InSomeSpan(p: Projection, i: int)
    requires Partition(p) && 0 <= i < p.length
    ensures InSegment(p, i) || InGap(p, i)
  {
    var spans, m := Spans(p.segments, p.gaps), |p.segments|;
    assert Count(spans, i, None) == 1;
    var k := CountIsCovered(spans, i);
    if k < m { assert p.segments[k].Has(i); } else { assert spans[m + (k - m)].Covers(i); }
  }

  // ---- a flat coordinate ------------------------------------------------------------------------------

  /** One segment up to the shortest dump's end and a gap past it. A class is reported only where
      a dump has a byte and a class was measured; every other entry is -1. */
  function FlatProjection(length: nat, start: int, size: int, nDumps: nat, classes: Option<seq<int>>): (p: Projection)
    ensures p.length == |p.classes| == length
    ensures forall i :: 0 <= i < length ==>
              (|p.segments| == 1 && p.segments[0].Has(i) <==> start + i < size)
    ensures forall i :: 0 <= i < length ==>
              p.classes[i] == if start + i < size && classes.Some? && i < |classes.value| then classes.value[i] else -1
  {
    var covered := Max(0, Min(length, Max(0, size - start)));
    var segments := if covered > 0 then [AlignedSegment(0, covered, start, -1, seq(nDumps, _ => -1))] else [];
    var gaps := if covered < length then [(covered, length - covered)] else [];
    var take := if classes.None? then 0 else Min(covered, |classes.value|);
    var head := if take > 0 then classes.value[..take] else [];
    Projection(length, segments, gaps, head + seq(length - Max(0, take), _ => -1))
  }

  /** A flat projection partitions its window, and every gap index is unclassified. */
  lemma {:induction false} FlatPartitions(length: nat, start: int, size: int, nDumps: nat, classes: Option<seq<int>>)
    ensures var p := FlatProjection(length, start, size, nDumps, classes);
            Partition(p) && forall i :: InGap(p, i) ==> 0 <= i < length && p.classes[i] == -1
  {
    var p := FlatProjection(length, start, size, nDumps, classes);
    var covered := Max(0, Min(length, Max(0, size - start)));
    FlatTiles(Spans(p.segments, p.gaps), covered, length);
    forall i | InGap(p, i) ensures 0 <= i < length && p.classes[i] == -1 {
      assert covered <= i < length;
    }
  }

  lemma {:induction false} FlatTiles(spans: seq<Run<bool>>, covered: int, length: int)
    requires 0 <= covered <= length
    requires spans == (if covered > 0 then [Run(0, covered, true)] else [])
                    + (if covered < length then [Run(covered, length - covered, false)] else [])
    ensures Tiles(spans, length)
  {
    forall i ensures Count(spans, i, None) == if 0 <= i < length then 1 else 0 {
      FlatCount(spans, covered, length, i);
    }
  }

  lemma {:induction false} FlatCount(spans: seq<Run<bool>>, covered: int, length: int, i: int)
    requires 0 <= covered <= length
    requires spans == (if covered > 0 then [Run(0, covered, true)] else [])
                    + (if covered < length then [Run(covered, length - covered, false)] else [])
    ensures Count(spans, i, None) == if 0 <= i < length then 1 else 0
  {
    var first := if covered > 0 then [Run(0, covered, true)] else [];
    var second := if covered < length then [Run(covered, length - covered, false)] else [];
    SumAppend(first, second, Hits(i, None));
    if covered > 0 { SumSnoc([], Run(0, covered, true), Hits(i, None)); assert [] + first == first; }
    if covered < length {
      SumSnoc([], Run(covered, length - covered, false), Hits(i, None));
      assert [] + second == second;
    }
  }

  // ---- an aligned coordinate ----------------------------------------------------------------------------

  /** A run of the window that a walk resolved to the slab. */
  datatype Piece = Piece(offset: int, length: int, slab: int, row: int) {
    predicate Has(i: int) { offset <= i < offset + length }
  }

  /** The slab byte and layout row that own index `i`: a later piece wins over an earlier one. */
  ghost function Owner(pieces: seq<Piece>, n: nat, i: int): Option<(int, int)>
    requires n <= |pieces|
  {
    if n == 0 then None
    else if pieces[n - 1].Has(i) then Some((pieces[n - 1].slab + (i - pieces[n - 1].offset), pieces[n - 1].row))
    else Owner(pieces, n - 1, i)
  }

  /** What a walk yields: runs inside the window, of classified slab bytes in some layout row. */
  ghost predicate Walked(pieces: seq<Piece>, length: int, slabSize: int) {
    forall k :: 0 <= k < |pieces| ==> Fits(pieces[k], length, slabSize)
  }

  predicate Fits(p: Piece, length: int, slabSize: int) {
    0 <= p.offset && p.offset + p.length <= length && 0 <= p.slab && p.slab + p.length <= slabSize && p.row >= 0
  }

  ghost predicate PaintedAt(owner: Option<(int, int)>, classCodes: seq<int>, code: int, slab: int, row: int) {
    match owner
    case None => code == -1 && slab == -1 && row == -1
    case Some(o) => slab == o.0 && row == o.1 && row >= 0 && 0 <= slab < |classCodes| && code == classCodes[slab]
  }

  /** Whether a new span begins at `i`: the row changes, or a covered run stops being contiguous. */
  predicate Breaks(rows: seq<int>, slabs: seq<int>, i: nat)
    requires |rows| == |slabs| && i < |rows|
  {
    i == 0 || !(rows[i] == rows[i - 1] && (slabs[i] == slabs[i - 1] + 1 || rows[i] < 0))
  }

  function Bounds(rows: seq<int>, slabs: seq<int>, n: nat): (r: seq<nat>)
    requires |rows| == |slabs| && n <= |rows|
    ensures forall k :: 0 <= k < |r| ==> r[k] < n
  {
    if n == 0 then [] else Bounds(rows, slabs, n - 1) + if Breaks(rows, slabs, n - 1) then [n - 1] else []
  }

  /** Between two bounds nothing breaks. */
  lemma {:induction false} BoundsEnclose(rows: seq<int>, slabs: seq<int>, n: nat, k: nat)
    requires |rows| == |slabs| && n <= |rows| && k < |Bounds(rows, slabs, n)|
    ensures var b := Bounds(rows, slabs, n); var stop := if k + 1 < |b| then b[k + 1] else n;
            && b[k] < stop && Breaks(rows, slabs, b[k])
            && forall i :: b[k] < i < stop ==> !Breaks(rows, slabs, i)
  {
    var init := Bounds(rows, slabs, n - 1);
    if k < |init| {
      BoundsEnclose(rows, slabs, n - 1, k);
    }
  }

  lemma {:induction false} FirstBound(rows: seq<int>, slabs: seq<int>, n: nat)
    requires |rows| == |slabs| && 0 < n <= |rows|
    ensures Bounds(rows, slabs, n) != [] && Bounds(rows, slabs, n)[0] == 0
  {
    if n > 1 { FirstBound(rows, slabs, n - 1); }
  }

  /** The segment says of each of its indices which slab byte owns it. */
  ghost predicate Describes(s: AlignedSegment, pieces: seq<Piece>) {
    forall i :: s.Has(i) ==> Owner(pieces, |pieces|, i) == Some((s.slabOffset + (i - s.windowOffset), s.layoutRow))
  }

  ghost predicate Unowned(gap: (int, int), pieces: seq<Piece>) {
    forall i :: gap.0 <= i < gap.0 + gap.1 ==> Owner(pieces, |pieces|, i).None?
  }

  /** Where a slab byte lives in each dump. */
  function VasOf(nDumps: nat, slabToVa: (int, int) -> int, slab: int): seq<int> {
    seq(nDumps, d requires 0 <= d < nDumps => slabToVa(d, slab))
  }

  /** The segment has an address for each dump: where the dump keeps the segment's first slab byte. */
  ghost predicate Addressed(s: AlignedSegment, nDumps: nat, slabToVa: (int, int) -> int) {
    |s.vas| == nDumps && forall d :: 0 <= d < nDumps ==> s.vas[d] == slabToVa(d, s.slabOffset)
  }

  ghost predicate AllDescribe(segments: seq<AlignedSegment>, pieces: seq<Piece>, nDumps: nat,
                              slabToVa: (int, int) -> int) {
    forall k :: 0 <= k < |segments| ==> Describes(segments[k], pieces) && Addressed(segments[k], nDumps, slabToVa)
  }

  ghost predicate NoneOwned(gaps: seq<(int, int)>, pieces: seq<Piece>) {
    forall k :: 0 <= k < |gaps| ==> Unowned(gaps[k], pieces)
  }

  /** The segment does not continue the byte before it, in its row or on the slab. */
  ghost predicate Begins(s: AlignedSegment, pieces: seq<Piece>) {
    s.windowOffset > 0 ==> Owner(pieces, |pieces|, s.windowOffset - 1) != Some((s.slabOffset - 1, s.layoutRow))
  }

  /** The gap does not continue one before it. */
  ghost predicate GapBegins(gap: (int, int), pieces: seq<Piece>) {
    gap.0 > 0 ==> Owner(pieces, |pieces|, gap.0 - 1).Some?
  }

  /** No span could have begun earlier. */
  ghost predicate Maximal(segments: seq<AlignedSegment>, gaps: seq<(int, int)>, pieces: seq<Piece>) {
    && (forall k :: 0 <= k < |segments| ==> Begins(segments[k], pieces))
    && forall k :: 0 <= k < |gaps| ==> GapBegins(gaps[k], pieces)
  }

  ghost predicate Classified(codes: seq<int>, pieces: seq<Piece>, classCodes: seq<int>) {
    forall i :: 0 <= i < |codes| ==> CodeFor(Owner(pieces, |pieces|, i), classCodes, codes[i])
  }

  ghost predicate CodeFor(owner: Option<(int, int)>, classCodes: seq<int>, code: int) {
    match owner
    case None => code == -1
    case Some(o) => 0 <= o.0 < |classCodes| && code == classCodes[o.0]
  }

  /** A walk's pieces as a projection: the window is partitioned, each segment names the byte that
      owns each of its indices and every dump's address of it, no gap is owned, classes follow
      ownership, and no span is split. */
  method Project(length: nat, pieces: seq<Piece>, classCodes: seq<int>, nDumps: nat, slabToVa: (int, int) -> int)
    returns (p: Projection)
    requires Walked(pieces, length, |classCodes|)
    ensures p.length == length && Partition(p)
    ensures Classified(p.classes, pieces, classCodes)
    ensures AllDescribe(p.segments, pieces, nDumps, slabToVa) && NoneOwned(p.gaps, pieces)
    ensures Maximal(p.segments, p.gaps, pieces)
  {
    var codes, slabs, rows := Paint(length, pieces, classCodes);
    var bounds := Bounds(rows, slabs, length) + [length];
    var segments: seq<AlignedSegment>, gaps: seq<(int, int)> := [], [];
    if length > 0 { FirstBound(rows, slabs, length); }
    for k := 0 to |bounds| - 1
      invariant Tiles(Spans(segments, gaps), bounds[k])
      invariant AllDescribe(segments, pieces, nDumps, slabToVa) && NoneOwned(gaps, pieces)
      invariant Maximal(segments, gaps, pieces)
    {
      BoundsEnclose(rows, slabs, length, k);
      segments, gaps := AddSpan(segments, gaps, pieces, classCodes, codes, slabs, rows, bounds[k], bounds[k + 1],
                                nDumps, slabToVa);
    }
    p := Projection(length, segments, gaps, codes);
  }

  /** The span between two breaks as a gap or as a segment. */
  method AddSpan(segments: seq<AlignedSegment>, gaps: seq<(int, int)>, ghost pieces: seq<Piece>,
                 ghost classCodes: seq<int>,
                 ghost codes: seq<int>, slabs: seq<int>, rows: seq<int>, begin: nat, stop: nat, nDumps: nat,
                 slabToVa: (int, int) -> int)
    returns (moreSegments: seq<AlignedSegment>, moreGaps: seq<(int, int)>)
    requires AllPainted(pieces, classCodes, codes, slabs, rows) && begin < stop <= |rows|
    requires Breaks(rows, slabs, begin) && forall i :: begin < i < stop ==> !Breaks(rows, slabs, i)
    requires Tiles(Spans(segments, gaps), begin)
    requires AllDescribe(segments, pieces, nDumps, slabToVa) && NoneOwned(gaps, pieces)
    requires Maximal(segments, gaps, pieces)
    ensures Tiles(Spans(moreSegments, moreGaps), stop)
    ensures AllDescribe(moreSegments, pieces, nDumps, slabToVa) && NoneOwned(moreGaps, pieces)
    ensures Maximal(moreSegments, moreGaps, pieces)
  {
    SpanBegins(pieces, classCodes, codes, slabs, rows, begin, stop - begin, VasOf(nDumps, slabToVa, slabs[begin]));
    SpanIsOwned(pieces, classCodes, codes, slabs, rows, begin, stop, VasOf(nDumps, slabToVa, slabs[begin]));
    if rows[begin] < 0 {
      AddGap(segments, gaps, begin, stop);
      MoreGaps(segments, gaps, (begin, stop - begin), pieces);
      return segments, gaps + [(begin, stop - begin)];
    }
    var segment := AlignedSegment(begin, stop - begin, slabs[begin], rows[begin],
                                  VasOf(nDumps, slabToVa, slabs[begin]));
    AddSegment(segments, gaps, segment);
    MoreSegments(segments, gaps, segment, pieces, nDumps, slabToVa);
    return segments + [segment], gaps;
  }

  lemma {:induction false} MoreGaps(segments: seq<AlignedSegment>, gaps: seq<(int, int)>, gap: (int, int),
                                    pieces: seq<Piece>)
    requires NoneOwned(gaps, pieces) && Maximal(segments, gaps, pieces)
    requires Unowned(gap, pieces) && GapBegins(gap, pieces)
    ensures NoneOwned(gaps + [gap], pieces) && Maximal(segments, gaps + [gap], pieces)
  {
  }

  lemma {:induction false} MoreSegments(segments: seq<AlignedSegment>, gaps: seq<(int, int)>, s: AlignedSegment,
                                        pieces: seq<Piece>, nDumps: nat, slabToVa: (int, int) -> int)
    requires AllDescribe(segments, pieces, nDumps, slabToVa) && Maximal(segments, gaps, pieces)
    requires Describes(s, pieces) && Addressed(s, nDumps, slabToVa) && Begins(s, pieces)
    ensures AllDescribe(segments + [s], pieces, nDumps, slabToVa) && Maximal(segments + [s], gaps, pieces)
  {
    var more := segments + [s];
    forall k | 0 <= k < |more|
      ensures Describes(more[k], pieces) && Addressed(more[k], nDumps, slabToVa) && Begins(more[k], pieces)
    {
      if k < |segments| { assert more[k] == segments[k]; }
    }
  }

  ghost predicate AllPainted(pieces: seq<Piece>, classCodes: seq<int>, codes: seq<int>, slabs: seq<int>,
                             rows: seq<int>) {
    && |codes| == |slabs| == |rows|
    && forall i :: 0 <= i < |rows| ==> PaintedAt(Owner(pieces, |pieces|, i), classCodes, codes[i], slabs[i], rows[i])
  }

  lemma {:induction false} SpanBegins(pieces: seq<Piece>, classCodes: seq<int>, codes: seq<int>, slabs: seq<int>,
                                      rows: seq<int>, begin: nat, length: int, vas: seq<int>)
    requires AllPainted(pieces, classCodes, codes, slabs, rows) && begin < |rows| && Breaks(rows, slabs, begin)
    ensures if rows[begin] < 0 then GapBegins((begin, length), pieces)
            else Begins(AlignedSegment(begin, length, slabs[begin], rows[begin], vas), pieces)
  {
    if begin > 0 {
      var i := begin - 1;
      assert PaintedAt(Owner(pieces, |pieces|, i), classCodes, codes[i], slabs[i], rows[i]);
      assert PaintedAt(Owner(pieces, |pieces|, begin), classCodes, codes[begin], slabs[begin], rows[begin]);
    }
  }

  lemma {:induction false} SpanIsOwned(pieces: seq<Piece>, classCodes: seq<int>, codes: seq<int>, slabs: seq<int>,
                                       rows: seq<int>, begin: nat, stop: nat, vas: seq<int>)
    requires AllPainted(pieces, classCodes, codes, slabs, rows) && begin < stop <= |rows|
    requires forall i :: begin < i < stop ==> !Breaks(rows, slabs, i)
    ensures if rows[begin] < 0 then Unowned((begin, stop - begin), pieces)
            else Describes(AlignedSegment(begin, stop - begin, slabs[begin], rows[begin], vas), pieces)
  {
    SpanIsUniform(rows, slabs, begin, stop);
    forall i | begin <= i < stop
      ensures if rows[begin] < 0 then Owner(pieces, |pieces|, i).None?
              else Owner(pieces, |pieces|, i) == Some((slabs[begin] + (i - begin), rows[begin]))
    {
      assert PaintedAt(Owner(pieces, |pieces|, i), classCodes, codes[i], slabs[i], rows[i]);
    }
  }

  /** Per index: class code, owning slab byte and owning row, -1 where nothing owns it. */
  method Paint(length: nat, pieces: seq<Piece>, classCodes: seq<int>)
    returns (codes: seq<int>, slabs: seq<int>, rows: seq<int>)
    requires Walked(pieces, length, |classCodes|)
    ensures |rows| == length && AllPainted(pieces, classCodes, codes, slabs, rows)
    ensures Classified(codes, pieces, classCodes)
  {
    var code := new int[length](_ => -1);
    var slab := new int[length](_ => -1);
    var row := new int[length](_ => -1);
    for k := 0 to |pieces|
      invariant forall i :: 0 <= i < length ==> PaintedAt(Owner(pieces, k, i), classCodes, code[i], slab[i], row[i])
    {
      var p := pieces[k];
      assert Fits(p, length, |classCodes|);
      forall i | p.offset <= i < p.offset + p.length { code[i] := classCodes[p.slab + (i - p.offset)]; }
      forall i | p.offset <= i < p.offset + p.length { slab[i] := p.slab + (i - p.offset); }
      forall i | p.offset <= i < p.offset + p.length { row[i] := p.row; }
    }
    codes, slabs, rows := code[..], slab[..], row[..];
  }

  lemma {:induction false} SpanIsUniform(rows: seq<int>, slabs: seq<int>, begin: nat, stop: nat)
    requires |rows| == |slabs| && begin < stop <= |rows|
    requires forall i :: begin < i < stop ==> !Breaks(rows, slabs, i)
    ensures forall i :: begin <= i < stop ==>
              rows[i] == rows[begin] && (rows[begin] >= 0 ==> slabs[i] == slabs[begin] + (i - begin))
  {
    if begin + 1 < stop {
      SpanIsUniform(rows, slabs, begin, stop - 1);
      assert !Breaks(rows, slabs, stop - 1);
    }
  }

  lemma {:induction false} SpansCount(segments: seq<AlignedSegment>, gaps: seq<(int, int)>, i: int)
    ensures Count(Spans(segments, gaps), i, None)
              == Count(Spans(segments, []), i, None) + Count(Spans([], gaps), i, None)
  {
    assert Spans(segments, gaps) == Spans(segments, []) + Spans([], gaps);
    SumAppend(Spans(segments, []), Spans([], gaps), Hits(i, None));
  }

  lemma {:induction false} SegmentCount(segments: seq<AlignedSegment>, gaps: seq<(int, int)>, s: AlignedSegment, i: int)
    ensures Count(Spans(segments + [s], gaps), i, None)
         == Count(Spans(segments, gaps), i, None) + if s.Has(i) then 1 else 0
  {
    SpansCount(segments, gaps, i);
    SpansCount(segments + [s], gaps, i);
    SegmentAdds(segments, s, i);
  }

  lemma {:induction false} SegmentAdds(segments: seq<AlignedSegment>, s: AlignedSegment, i: int)
    ensures Count(Spans(segments + [s], []), i, None)
         == Count(Spans(segments, []), i, None) + if s.Has(i) then 1 else 0
  {
    OneMoreSegment(segments, s);
    SumSnoc(Spans(segments, []), Run(s.windowOffset, s.length, true), Hits(i, None));
  }

  lemma {:induction false} GapCount(segments: seq<AlignedSegment>, gaps: seq<(int, int)>, gap: (int, int), i: int)
    ensures Count(Spans(segments, gaps + [gap]), i, None)
         == Count(Spans(segments, gaps), i, None) + if gap.0 <= i < gap.0 + gap.1 then 1 else 0
  {
    SpansCount(segments, gaps, i);
    SpansCount(segments, gaps + [gap], i);
    GapAdds(gaps, gap, i);
  }

  lemma {:induction false} GapAdds(gaps: seq<(int, int)>, gap: (int, int), i: int)
    ensures Count(Spans([], gaps + [gap]), i, None)
         == Count(Spans([], gaps), i, None) + if gap.0 <= i < gap.0 + gap.1 then 1 else 0
  {
    OneMoreGap(gaps, gap);
    SumSnoc(Spans([], gaps), Run(gap.0, gap.1, false), Hits(i, None));
  }

  lemma {:induction false} OneMoreSegment(segments: seq<AlignedSegment>, s: AlignedSegment)
    ensures Spans(segments + [s], []) == Spans(segments, []) + [Run(s.windowOffset, s.length, true)]
  {
  }

  lemma {:induction false} OneMoreGap(gaps: seq<(int, int)>, gap: (int, int))
    ensures Spans([], gaps + [gap]) == Spans([], gaps) + [Run(gap.0, gap.1, false)]
  {
  }

  lemma {:induction false} AddSegment(segments: seq<AlignedSegment>, gaps: seq<(int, int)>, s: AlignedSegment)
    requires s.length > 0 && s.windowOffset >= 0 && Tiles(Spans(segments, gaps), s.windowOffset)
    ensures Tiles(Spans(segments + [s], gaps), s.windowOffset + s.length)
  {
    var more, stop := Spans(segments + [s], gaps), s.windowOffset + s.length;
    forall i ensures Count(more, i, None) == if 0 <= i < stop then 1 else 0 {
      SegmentCount(segments, gaps, s, i);
    }
    StillPositive(segments, gaps, segments + [s], gaps);
  }

  lemma {:induction false} AddGap(segments: seq<AlignedSegment>, gaps: seq<(int, int)>, begin: int, stop: int)
    requires 0 <= begin < stop && Tiles(Spans(segments, gaps), begin)
    ensures Tiles(Spans(segments, gaps + [(begin, stop - begin)]), stop)
  {
    var more := Spans(segments, gaps + [(begin, stop - begin)]);
    forall i ensures Count(more, i, None) == if 0 <= i < stop then 1 else 0 {
      GapCount(segments, gaps, (begin, stop - begin), i);
    }
    StillPositive(segments, gaps, segments, gaps + [(begin, stop - begin)]);
  }

  lemma {:induction false} StillPositive(segments: seq<AlignedSegment>, gaps: seq<(int, int)>,
                                         more: seq<AlignedSegment>, moreGaps: seq<(int, int)>)
    requires Positive(Spans(segments, gaps))
    requires segments <= more && gaps <= moreGaps
    requires forall k :: |segments| <= k < |more| ==> more[k].length > 0
    requires forall k :: |gaps| <= k < |moreGaps| ==> moreGaps[k].1 > 0
    ensures Positive(Spans(more, moreGaps))
  {
    var before, after := Spans(segments, gaps), Spans(more, moreGaps);
    forall k | 0 <= k < |after| ensures after[k].len > 0 {
      if k < |segments| {
        assert before[k].len > 0;
      } else if k >= |more| {
        var g := k - |more|;
        assert after[|more| + g].len == moreGaps[g].1;
        if g < |gaps| { assert before[|segments| + g].len > 0; }
      }
    }
  }
}
