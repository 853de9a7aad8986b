/** What a scan reads from one dump: captured runs merged, then clipped into segments
    (app/scan_plan.py). */
module ScanPlan {
  import opened Sequences
  import opened LabelledRuns

  // ---- captured runs ---------------------------------------------------------------

  datatype Captured = Captured(va: int, length: int, vas: int)

  predicate CapturedLe(x: Captured, y: Captured) {
    || x.va < y.va
    || (x.va == y.va && (x.length < y.length || (x.length == y.length && x.vas <= y.vas)))
  }

  predicate Joinable(x: Captured, y: Captured) {
    x.va + x.length == y.va && x.vas + x.length == y.vas
  }

  /** A captured run as an address run labelled with its shift from VA to VAS, so that what a
      table denotes is the multiset of `(va, vas)` byte pairs it captures. */
  function Shift(c: Captured): Run<int> { Run(c.va, c.length, c.vas - c.va) }

  function Shifts(runs: seq<Captured>): (r: seq<Run<int>>)
    ensures |r| == |runs| && forall i :: 0 <= i < |r| ==> r[i] == Shift(runs[i])
  {
    seq(|runs|, i requires 0 <= i < |runs| => Shift(runs[i]))
  }

  ghost function PairHits(a: int, l: Option<int>): Captured -> int {
    (c: Captured) => if Shift(c).Puts(a, l) then 1 else 0
  }

  /** How many runs capture address `a` at VAS offset `a + shift` (at any offset for `None`). */
  ghost function Pairs(runs: seq<Captured>, a: int, shift: Option<int>): int {
    Sum(runs, PairHits(a, shift))
  }

  ghost function Lengths(): Captured -> int { (c: Captured) => Max(c.length, 0) }

  lemma {:induction false} PairsAreCounts(runs: seq<Captured>, a: int, l: Option<int>)
    ensures Pairs(runs, a, l) == Count(Shifts(runs), a, l)
  {
    if runs != [] {
      PairsAreCounts(runs[..|runs| - 1], a, l);
      assert Shifts(runs)[..|runs| - 1] == Shifts(runs[..|runs| - 1]);
    }
  }

  function NonEmpty(runs: seq<Captured>): (r: seq<Captured>)
    ensures forall c :: c in r <==> c in runs && c.length > 0
  {
    if runs == [] then []
    else NonEmpty(runs[..|runs| - 1]) + (if runs[|runs| - 1].length > 0 then [runs[|runs| - 1]] else [])
  }

  lemma {:induction false} NonEmptySum(runs: seq<Captured>, f: Captured -> int)
    requires forall c: Captured :: c.length <= 0 ==> f(c) == 0
    ensures Sum(NonEmpty(runs), f) == Sum(runs, f)
  {
    if runs != [] {
      var init, last := runs[..|runs| - 1], runs[|runs| - 1];
      NonEmptySum(init, f);
      if last.length > 0 {
        SumSnoc(NonEmpty(init), last, f);
      } else {
        assert NonEmpty(init) + [] == NonEmpty(init);
      }
    }
  }

  /** Same byte pairs, each as often, and the same total length. */
  ghost predicate SameBytes(x: seq<Captured>, y: seq<Captured>) {
    && (forall a, l :: Pairs(x, a, l) == Pairs(y, a, l))
    && Sum(x, Lengths()) == Sum(y, Lengths())
  }

  /** Positive lengths, ascending in VA, and no neighbours left that could be joined. */
  ghost predicate Joined(out: seq<Captured>) {
    && (forall i :: 0 <= i < |out| ==> out[i].length > 0)
    && (forall i, j :: 0 <= i < j < |out| ==> out[i].va <= out[j].va)
    && (forall i :: 0 < i < |out| ==> !Joinable(out[i - 1], out[i]))
  }

  lemma {:induction false} PairsSnoc(x: seq<Captured>, c: Captured, a: int, l: Option<int>)
    ensures Pairs(x + [c], a, l) == Pairs(x, a, l) + (if Shift(c).Puts(a, l) then 1 else 0)
  {
    SumSnoc(x, c, PairHits(a, l));
  }

  lemma {:induction false} JoinKeepsPair(init: seq<Captured>, last: Captured, c: Captured, a: int, l: Option<int>)
    requires Joinable(last, c) && last.length > 0 && c.length > 0
    ensures Pairs(init + [Captured(last.va, last.length + c.length, last.vas)], a, l)
         == Pairs(init + [last] + [c], a, l)
  {
    PairsSnoc(init, Captured(last.va, last.length + c.length, last.vas), a, l);
    PairsSnoc(init, last, a, l);
    PairsSnoc(init + [last], c, a, l);
  }

  lemma {:induction false} JoinKeepsBytes(init: seq<Captured>, last: Captured, c: Captured)
    requires Joinable(last, c) && last.length > 0 && c.length > 0
    ensures SameBytes(init + [Captured(last.va, last.length + c.length, last.vas)], init + [last] + [c])
  {
    var both := Captured(last.va, last.length + c.length, last.vas);
    forall a, l ensures Pairs(init + [both], a, l) == Pairs(init + [last] + [c], a, l) {
      JoinKeepsPair(init, last, c, a, l);
    }
    SumSnoc(init, both, Lengths());
    SumSnoc(init, last, Lengths());
    SumSnoc(init + [last], c, Lengths());
  }

  lemma {:induction false} SnocKeepsBytes(x: seq<Captured>, y: seq<Captured>, c: Captured)
    requires SameBytes(x, y)
    ensures SameBytes(x + [c], y + [c])
  {
    forall a, l ensures Pairs(x + [c], a, l) == Pairs(y + [c], a, l) {
      assert Pairs(x, a, l) == Pairs(y, a, l);
      PairsSnoc(x, c, a, l);
      PairsSnoc(y, c, a, l);
    }
    SumSnoc(x, c, Lengths());
    SumSnoc(y, c, Lengths());
  }

  lemma {:induction false} JoinedSnoc(out: seq<Captured>, c: Captured)
    requires Joined(out) && c.length > 0
    requires out != [] ==> out[|out| - 1].va <= c.va && !Joinable(out[|out| - 1], c)
    ensures Joined(out + [c])
  {
    var next := out + [c];
    forall i, j | 0 <= i < j < |next| ensures next[i].va <= next[j].va {
      if j == |out| && i < |out| - 1 { assert out[i].va <= out[|out| - 1].va; }
    }
  }

  lemma {:induction false} JoinedLast(init: seq<Captured>, last: Captured, both: Captured)
    requires Joined(init + [last]) && both.length > 0 && both.va == last.va && both.vas == last.vas
    ensures Joined(init + [both])
  {
    var before, next := init + [last], init + [both];
    assert before[|init|] == last;
    forall i | 0 <= i < |next|
      ensures next[i].length > 0 && next[i].va == before[i].va && next[i].vas == before[i].vas
    {
      assert before[i].length > 0;
    }
    forall i | 0 < i < |next| ensures !Joinable(next[i - 1], next[i]) {
      assert !Joinable(before[i - 1], before[i]);
      assert next[i - 1] == before[i - 1];
    }
  }

  lemma {:induction false} JoinStep(init: seq<Captured>, last: Captured, seen: seq<Captured>, c: Captured)
    requires SameBytes(init + [last], seen) && last.length > 0 && c.length > 0 && Joinable(last, c)
    ensures SameBytes(init + [Captured(last.va, last.length + c.length, last.vas)], seen + [c])
  {
    var before, both := init + [last], Captured(last.va, last.length + c.length, last.vas);
    SnocKeepsBytes(before, seen, c);
    JoinKeepsBytes(init, last, c);
    forall a, l ensures Pairs(init + [both], a, l) == Pairs(seen + [c], a, l) {
      assert Pairs(init + [both], a, l) == Pairs(init + [last] + [c], a, l);
      assert Pairs(before + [c], a, l) == Pairs(seen + [c], a, l);
    }
  }

  lemma {:induction false} SortedKeepsBytes(runs: seq<Captured>)
    ensures SameBytes(Sort(NonEmpty(runs), CapturedLe), runs)
  {
    forall a, l ensures Pairs(Sort(NonEmpty(runs), CapturedLe), a, l) == Pairs(runs, a, l) {
      SumSort(NonEmpty(runs), CapturedLe, PairHits(a, l));
      NonEmptySum(runs, PairHits(a, l));
    }
    SumSort(NonEmpty(runs), CapturedLe, Lengths());
    NonEmptySum(runs, Lengths());
  }

  lemma {:induction false} JoinedIsCanonical(runs: seq<Captured>, out: seq<Captured>)
    requires Joined(out) && SameBytes(out, runs) && Disjoint(Shifts(runs))
    ensures Canonical(Shifts(out))
  {
    forall a ensures Count(Shifts(out), a, None) <= 1 {
      PairsAreCounts(out, a, None);
      PairsAreCounts(runs, a, None);
    }
    OrderedFromDisjoint(Shifts(out));
  }

  /** Captured runs, the ones adjacent in both coordinates joined. No byte pair is gained or
      lost and no neighbours are left that could be joined; when no address is captured twice
      the result is the one canonical table of its byte pairs. */
  method Merged(runs: seq<Captured>) returns (out: seq<Captured>)
    ensures Joined(out)
    ensures SameBytes(out, runs)
    ensures Disjoint(Shifts(runs)) ==> Canonical(Shifts(out))
  {
    var ordered := Sort(NonEmpty(runs), CapturedLe);
    SortedAscends(runs);
    out := JoinNeighbours(ordered);
    SortedKeepsBytes(runs);
    SameBytesThrough(out, ordered, runs);
    if Disjoint(Shifts(runs)) {
      JoinedIsCanonical(runs, out);
    }
  }

  /** Non-empty runs in ascending order of address. */
  ghost predicate AscendingRuns(runs: seq<Captured>) {
    && (forall i :: 0 <= i < |runs| ==> runs[i].length > 0)
    && (forall i :: 0 < i < |runs| ==> runs[i - 1].va <= runs[i].va)
  }

  lemma {:induction false} SortedAscends(runs: seq<Captured>)
    ensures AscendingRuns(Sort(NonEmpty(runs), CapturedLe))
  {
    var ordered := Sort(NonEmpty(runs), CapturedLe);
    SortSorts(NonEmpty(runs), CapturedLe);
    forall i | 0 <= i < |ordered| ensures ordered[i].length > 0 { assert ordered[i] in NonEmpty(runs); }
    forall i | 0 < i < |ordered| ensures ordered[i - 1].va <= ordered[i].va {
      assert CapturedLe(ordered[i - 1], ordered[i]);
    }
  }

  lemma {:induction false} SameBytesThrough(x: seq<Captured>, y: seq<Captured>, z: seq<Captured>)
    requires SameBytes(x, y) && SameBytes(y, z)
    ensures SameBytes(x, z)
  {
    forall a, l ensures Pairs(x, a, l) == Pairs(z, a, l) { assert Pairs(x, a, l) == Pairs(y, a, l); }
  }

  method JoinNeighbours(ordered: seq<Captured>) returns (out: seq<Captured>)
    requires AscendingRuns(ordered)
    ensures Joined(out) && SameBytes(out, ordered)
  {
    out := [];
    for k := 0 to |ordered|
      invariant Joined(out) && SameBytes(out, ordered[..k])
      invariant out != [] ==> k > 0 && out[|out| - 1].va <= ordered[k - 1].va
    {
      var c := ordered[k];
      TakeNext(ordered, k);
      if out != [] && Joinable(out[|out| - 1], c) {
        out := JoinLast(out, ordered[..k], c);
      } else {
        SnocKeepsBytes(out, ordered[..k], c);
        JoinedSnoc(out, c);
        out := out + [c];
      }
    }
    TakeAll(ordered);
  }

  /** The last run made longer by one that continues it in both coordinates. */
  method JoinLast(before: seq<Captured>, ghost seen: seq<Captured>, c: Captured) returns (out: seq<Captured>)
    requires before != [] && Joinable(before[|before| - 1], c) && c.length > 0
    requires Joined(before) && SameBytes(before, seen)
    ensures out != [] && out[|out| - 1].va == before[|before| - 1].va
    ensures Joined(out) && SameBytes(out, seen + [c])
  {
    var init, last := before[..|before| - 1], before[|before| - 1];
    SplitLast(before);
    JoinStep(init, last, seen, c);
    JoinedLast(init, last, Captured(last.va, last.length + c.length, last.vas));
    out := init + [Captured(last.va, last.length + c.length, last.vas)];
  }

  // ---- segments ---------------------------------------------------------------------

  /** One VA-contiguous captured stretch; its first `lead` bytes are read but produce no hit. */
  datatype Segment = Segment(addr: int, length: int, vas: int, va: Option<int>, lead: int) {
    function Floor(): int { addr + lead }

    function End(): int { addr + length }

    /** Addresses a hit may start at. */
    predicate Scans(a: int) { Floor() <= a < End() }

    predicate SameShift(s: Segment) {
      && vas - addr == s.vas - s.addr
      && va.None? == s.va.None?
      && (va.Some? ==> va.value - addr == s.va.value - s.addr)
    }

    /** The part inside `[lo, hi)`, its read start moved down to the `align` grid. */
    function Clip(lo: int, hi: Option<int>, align: int): (r: Option<Segment>)
      requires align >= 1
      ensures r.None? <==> forall a :: addr <= a < End() ==> !InRange(a, lo, hi)
      ensures r.Some? ==> forall a :: r.value.Scans(a) <==> addr <= a < End() && InRange(a, lo, hi)
      ensures r.Some? ==> r.value.SameShift(this)
      ensures r.Some? ==> 0 <= r.value.lead < align && addr <= r.value.addr && r.value.length > r.value.lead
      ensures r.Some? ==> r.value.addr % align == 0 || r.value.addr == addr
    {
      var start := Max(addr, lo);
      var end := if hi.None? then addr + length else Min(addr + length, hi.value);
      if end <= start then
        assert forall a :: addr <= a < End() && InRange(a, lo, hi) ==> start <= a < end;
        None
      else
        assert InRange(start, lo, hi);
        var readFrom := Max(addr, start - start % align);
        var delta := readFrom - addr;
        GridStart(start, align);
        Some(Segment(readFrom, end - readFrom, vas + delta,
                     if va.None? then None else Some(va.value + delta), start - readFrom))
    }
  }

  predicate InRange(a: int, lo: int, hi: Option<int>) {
    lo <= a && (hi.None? || a < hi.value)
  }

  lemma {:induction false} GridStart(start: int, align: int)
    requires align >= 1
    ensures (start - start % align) % align == 0
  {
    var q := start / align;
    assert start - start % align == align * q;
    assert (align * q) % align == 0 by { MultipleMod(q, align); }
  }

  lemma {:induction false} MultipleMod(q: int, align: int)
    requires align >= 1
    ensures (align * q) % align == 0
  {
    var x := align * q;
    var d := q - x / align;
    assert align * d == x % align by {
      assert x == align * (x / align) + x % align;
      assert align * (q - x / align) == align * q - align * (x / align);
    }
    ScaleBound(align, d);
  }

  lemma {:induction false} ScaleBound(n: int, d: int)
    requires n >= 1
    ensures d >= 1 ==> n * d >= n
    ensures d <= -1 ==> n * d <= -n
  {
  }

  // ---- segments in scope ------------------------------------------------------------

  /** `segments` cut to `[offset, offset + length)` (`None`: from 0 / to the end). */
  function Clipped(segments: seq<Segment>, offset: Option<int>, length: Option<int>, align: int): seq<Segment>
    requires align >= 1
  {
    if segments == [] then []
    else
      var init := Clipped(segments[..|segments| - 1], offset, length, align);
      var last := segments[|segments| - 1].Clip(ScopeLo(offset), ScopeHi(offset, length), align);
      if last.None? then init else init + [last.value]
  }

  function ScopeLo(offset: Option<int>): int { if offset.None? then 0 else offset.value }

  function ScopeHi(offset: Option<int>, length: Option<int>): Option<int> {
    if length.None? then None else Some(ScopeLo(offset) + length.value)
  }

  ghost function ScanHits(a: int): Segment -> int { (s: Segment) => if s.Scans(a) then 1 else 0 }

  /** The scope starts at `offset`, or at 0, and ends after `length`, or never. */
  ghost predicate InScope(offset: Option<int>, length: Option<int>, a: int) {
    match (offset, length)
    case (None, None) => 0 <= a
    case (None, Some(n)) => 0 <= a < n
    case (Some(o), None) => o <= a
    case (Some(o), Some(n)) => o <= a < o + n
  }

  ghost predicate NoLead(segments: seq<Segment>) {
    forall i :: 0 <= i < |segments| ==> segments[i].lead == 0
  }

  /** Every address in scope is scanned exactly as often as the unclipped segments hold it, and
      no address out of scope is, whatever the alignment: `lead` bytes never produce a hit. */
  lemma {:induction false} ClippedScansScope(segments: seq<Segment>, offset: Option<int>, length: Option<int>,
                                             align: int, a: int)
    requires align >= 1 && NoLead(segments)
    ensures Sum(Clipped(segments, offset, length, align), ScanHits(a))
         == if InScope(offset, length, a) then Sum(segments, ScanHits(a)) else 0
  {
    if segments != [] {
      var n := |segments| - 1;
      ClippedScansScope(segments[..n], offset, length, align, a);
      ClipHit(segments[n], ScopeLo(offset), ScopeHi(offset, length), align, a);
      var last := segments[n].Clip(ScopeLo(offset), ScopeHi(offset, length), align);
      if last.Some? { SumSnoc(Clipped(segments[..n], offset, length, align), last.value, ScanHits(a)); }
    }
  }

  /** A clipped segment scans an address exactly when it is in scope and the segment holds it. */
  lemma {:induction false} ClipHit(s: Segment, lo: int, hi: Option<int>, align: int, a: int)
    requires align >= 1 && s.lead == 0
    ensures var r := s.Clip(lo, hi, align);
            (if r.Some? then ScanHits(a)(r.value) else 0) == if InRange(a, lo, hi) then ScanHits(a)(s) else 0
  {
    var r := s.Clip(lo, hi, align);
    if r.None? { assert s.addr <= a < s.End() ==> !InRange(a, lo, hi); } else {
      assert r.value.Scans(a) <==> s.addr <= a < s.End() && InRange(a, lo, hi);
    }
  }

  /** The size used to choose between a direct call and a job (computed without alignment) is
      the captured size of the aligned plan that is then scanned. */
  lemma {:induction false} ScanSizeIsPlanSize(segments: seq<Segment>, offset: Option<int>, length: Option<int>,
                                              align: int)
    requires align >= 1
    ensures Sum(Clipped(segments, offset, length, align), ScannedBytes())
         == Sum(Clipped(segments, offset, length, 1), ScannedBytes())
  {
    if segments != [] {
      var n := |segments| - 1;
      ScanSizeIsPlanSize(segments[..n], offset, length, align);
      var aligned := segments[n].Clip(ScopeLo(offset), ScopeHi(offset, length), align);
      var exact := segments[n].Clip(ScopeLo(offset), ScopeHi(offset, length), 1);
      if aligned.Some? {
        SumSnoc(Clipped(segments[..n], offset, length, align), aligned.value, ScannedBytes());
        SumSnoc(Clipped(segments[..n], offset, length, 1), exact.value, ScannedBytes());
      }
    }
  }

  ghost function ScannedBytes(): Segment -> int { (s: Segment) => s.length - s.lead }

  // ---- gaps -------------------------------------------------------------------------

  /** Segments with a virtual address, as `(va, length)` in ascending order. */
  function Placed(segments: seq<Segment>): seq<(int, int)> {
    if segments == [] then []
    else
      var last := segments[|segments| - 1];
      Placed(segments[..|segments| - 1]) + if last.va.Some? then [(last.va.value, last.length)] else []
  }

  ghost function PlacedMarks(segments: seq<Segment>): (r: seq<bool>)
    ensures |r| == |segments| && forall i :: 0 <= i < |r| ==> r[i] == segments[i].va.Some?
  {
    seq(|segments|, i requires 0 <= i < |segments| => segments[i].va.Some?)
  }

  /** The pairs are the address and the length of the segments at `places`. */
  ghost predicate PairsOf(pairs: seq<(int, int)>, segments: seq<Segment>, places: seq<nat>) {
    && |pairs| == |places|
    && forall k :: 0 <= k < |pairs| ==> places[k] < |segments| && IsPairOf(pairs[k], segments[places[k]])
  }

  ghost predicate IsPairOf(pair: (int, int), s: Segment) { s.va == Some(pair.0) && s.length == pair.1 }

  lemma {:induction false} OneMorePair(pairs: seq<(int, int)>, segments: seq<Segment>, places: seq<nat>, i: nat,
                                       pair: (int, int))
    requires PairsOf(pairs, segments, places) && i < |segments| && IsPairOf(pair, segments[i])
    ensures PairsOf(pairs + [pair], segments, places + [i])
  {
    var more, next := pairs + [pair], places + [i];
    forall k | 0 <= k < |more| ensures next[k] < |segments| && IsPairOf(more[k], segments[next[k]]) {
      if k < |pairs| { assert next[k] == places[k] && more[k] == pairs[k]; }
    }
  }

  /** The placed segments are those that have an address, in order. */
  lemma {:induction false} PlacedAreSegments(segments: seq<Segment>)
    ensures exists places: seq<nat> :: Places(PlacedMarks(segments), |segments|, places)
                                       && PairsOf(Placed(segments), segments, places)
  {
    var places := PlacedUpTo(segments, |segments|);
    TakeAll(segments);
  }

  lemma {:induction false} PlacedUpTo(segments: seq<Segment>, n: nat) returns (places: seq<nat>)
    requires n <= |segments|
    ensures Places(PlacedMarks(segments), n, places) && PairsOf(Placed(segments[..n]), segments, places)
  {
    if n == 0 {
      places := [];
    } else {
      places := PlacedUpTo(segments, n - 1);
      var last, before := segments[n - 1], Placed(segments[..n - 1]);
      assert segments[..n][..n - 1] == segments[..n - 1];
      if last.va.Some? {
        PlaceTaken(PlacedMarks(segments), n, places);
        OneMorePair(before, segments, places, n - 1, (last.va.value, last.length));
        places := places + [n - 1];
      } else {
        PlaceSkipped(PlacedMarks(segments), n, places);
        AppendNothing(before);
      }
    }
  }

  predicate PairLe(x: (int, int), y: (int, int)) { x.0 < y.0 || (x.0 == y.0 && x.1 <= y.1) }

  function GapBytes(ordered: seq<(int, int)>): int {
    if |ordered| <= 1 then 0
    else
      var n := |ordered| - 1;
      GapBytes(ordered[..n]) + ordered[n].0 - (ordered[n - 1].0 + ordered[n - 1].1)
  }

  /** (gaps, gap bytes) between consecutive segments: the bytes are what the span from the first start
      to the last segment's end holds beyond the captured bytes. Neighbours that touch in VA but not
      in the stream count as a gap of no bytes. */
  function GapStats(segments: seq<Segment>): (r: (int, int))
    ensures r.0 == if Placed(segments) == [] then 0 else |Placed(segments)| - 1
    ensures forall first, last :: Outermost(Placed(segments), first, last)
              ==> Sum(Placed(segments), PairLength()) + r.1 == last.0 + last.1 - first.0
  {
    var ordered := Sort(Placed(segments), PairLe);
    SpanOfGaps(Placed(segments));
    (if ordered == [] then 0 else |ordered| - 1, GapBytes(ordered))
  }

  /** The first and the last of the placed segments, by address. */
  ghost predicate Outermost(placed: seq<(int, int)>, first: (int, int), last: (int, int)) {
    && first in placed && last in placed
    && forall p :: p in placed ==>
         && (first.0 < p.0 || (first.0 == p.0 && first.1 <= p.1))
         && (p.0 < last.0 || (p.0 == last.0 && p.1 <= last.1))
  }

  lemma {:induction false} SpanOfGaps(placed: seq<(int, int)>)
    ensures |Sort(placed, PairLe)| == |placed|
    ensures forall first, last :: Outermost(placed, first, last)
              ==> Sum(placed, PairLength()) + GapBytes(Sort(placed, PairLe)) == last.0 + last.1 - first.0
  {
    var ordered := Sort(placed, PairLe);
    SortSorts(placed, PairLe);
    SumSort(placed, PairLe, PairLength());
    forall first, last | Outermost(placed, first, last)
      ensures ordered != [] && ordered[0] == first && ordered[|ordered| - 1] == last
    {
      EndsAreOutermost(placed, ordered, first, last);
    }
    if ordered != [] { GapsTelescope(ordered); }
  }

  lemma {:induction false} EndsAreOutermost(placed: seq<(int, int)>, ordered: seq<(int, int)>,
                                            first: (int, int), last: (int, int))
    requires (forall p :: p in ordered <==> p in placed) && SortedBy(ordered, PairLe)
    requires Outermost(placed, first, last)
    ensures ordered != [] && ordered[0] == first && ordered[|ordered| - 1] == last
  {
    var i: nat, j: nat :| i < |ordered| && ordered[i] == first && j < |ordered| && ordered[j] == last;
    if 0 < i { assert PairLe(ordered[0], first); }
    if j < |ordered| - 1 { assert PairLe(last, ordered[|ordered| - 1]); }
  }

  ghost function PairLength(): ((int, int)) -> int { (p: (int, int)) => p.1 }

  lemma {:induction false} GapsTelescope(ordered: seq<(int, int)>)
    requires ordered != []
    ensures var last := ordered[|ordered| - 1];
            Sum(ordered, PairLength()) + GapBytes(ordered) == last.0 + last.1 - ordered[0].0
  {
    var n := |ordered| - 1;
    if n == 0 {
      assert ordered == [] + [ordered[0]];
      SumSnoc([], ordered[0], PairLength());
    } else {
      GapsTelescope(ordered[..n]);
    }
  }

  /** Captured bytes plus gap bytes are exactly the span from the lowest segment's start to the
      highest-starting segment's end. */
  lemma {:induction false} SpanIsCapturedPlusGaps(segments: seq<Segment>)
    requires Placed(segments) != []
    ensures var ordered := Sort(Placed(segments), PairLe);
            && |ordered| == |Placed(segments)|
            && (forall p :: p in Placed(segments) ==> ordered[0].0 <= p.0 <= ordered[|ordered| - 1].0)
            && Sum(Placed(segments), PairLength()) + GapStats(segments).1
               == ordered[|ordered| - 1].0 + ordered[|ordered| - 1].1 - ordered[0].0
  {
    var ordered := Sort(Placed(segments), PairLe);
    SortSorts(Placed(segments), PairLe);
    SumSort(Placed(segments), PairLe, PairLength());
    GapsTelescope(ordered);
    forall p | p in Placed(segments) ensures ordered[0].0 <= p.0 <= ordered[|ordered| - 1].0 {
      assert p in ordered;
      var i :| 0 <= i < |ordered| && ordered[i] == p;
      if 0 < i { assert PairLe(ordered[0], p); }
      if i < |ordered| - 1 { assert PairLe(p, ordered[|ordered| - 1]); }
    }
  }
}
