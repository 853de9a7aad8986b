/** Scanning a run window by window equals scanning it whole, for any detector that decides what
    starts at a position from the bytes around it (app/scan_plan.py with app/tools_strings.py). */
module WindowedDetection {
  import opened Sequences
  import opened ScanWindows

  /** What a detector finds starting at one position of a buffer, in report order. */
  type Detector<!M> = (seq<byte>, int) -> seq<M>

  /** A finding and the run position it starts at. */
  datatype Report<M> = Report(offset: int, found: M)

  function Tagged<M>(found: seq<M>, p: int): (r: seq<Report<M>>)
    ensures |r| == |found| && forall i :: 0 <= i < |r| ==> r[i] == Report(p, found[i])
  {
    seq(|found|, i requires 0 <= i < |found| => Report(p, found[i]))
  }

  // ---- reports ----------------------------------------------------------------------------

  /** The matches a buffer holds below position `n`, in order of position. */
  function MatchesBelow<M>(at: Detector<M>, data: seq<byte>, n: nat): seq<Report<M>> {
    if n == 0 then [] else MatchesBelow(at, data, n - 1) + Tagged(at(data, n - 1), n - 1)
  }

  /** Scanning a run whole. */
  function WholeReports<M>(at: Detector<M>, run: seq<byte>): seq<Report<M>> {
    MatchesBelow(at, run, |run|)
  }

  /** What the window at `w` reports at its local position `p`. */
  function OwnedAt<M>(at: Detector<M>, data: seq<byte>, g: Grid, w: int, last: bool, p: int): seq<Report<M>> {
    if Owns(g, p, w, last) then Tagged(at(data, p), w + p) else []
  }

  /** What the window at `w`, whose read gave `data`, reports below its local position `n`:
      its matches in order, the ones it does not own dropped. */
  function OwnedBelow<M>(at: Detector<M>, data: seq<byte>, g: Grid, w: int, last: bool, n: nat): seq<Report<M>> {
    if n == 0 then []
    else OwnedBelow(at, data, g, w, last, n - 1) + OwnedAt(at, data, g, w, last, n - 1)
  }

  function WindowReports<M>(at: Detector<M>, data: seq<byte>, g: Grid, w: int, last: bool): seq<Report<M>> {
    OwnedBelow(at, data, g, w, last, |data|)
  }

  function Slice(run: seq<byte>, lo: int, hi: int): seq<byte> {
    if 0 <= lo <= hi <= |run| then run[lo..hi] else []
  }

  lemma {:induction false} SliceIs(run: seq<byte>, lo: int, hi: int)
    requires 0 <= lo <= hi <= |run|
    ensures Slice(run, lo, hi) == run[lo..hi]
  {
  }

  /** What the window at `w` of a fully read run reports. */
  function ReportsAt<M>(at: Detector<M>, run: seq<byte>, g: Grid, w: int): seq<Report<M>> {
    WindowReports(at, Slice(run, w, w + Want(g, |run|, w)), g, w, Last(g, |run|, w))
  }

  /** The reports of the windows `ws` of a fully read run, window by window. */
  function ScanReports<M>(at: Detector<M>, run: seq<byte>, g: Grid, ws: seq<int>): seq<Report<M>> {
    if ws == [] then [] else ReportsAt(at, run, g, ws[0]) + ScanReports(at, run, g, ws[1..])
  }

  // ---- what an owner sees -------------------------------------------------------------------

  /** Scanning each position `p` below `n` as if the run ended at `ends(p)`. */
  ghost function CutBelow<M>(at: Detector<M>, run: seq<byte>, ends: int -> int, n: nat): seq<Report<M>> {
    if n == 0 then [] else CutBelow(at, run, ends, n - 1) + Tagged(SeenTo(at, run, ends, n - 1), n - 1)
  }

  ghost function SeenTo<M>(at: Detector<M>, run: seq<byte>, ends: int -> int, p: int): seq<M> {
    at(Slice(run, 0, ends(p)), p)
  }

  /** Where the bytes end that the owner of each position sees. */
  ghost function OwnerEnds(g: Grid, length: int): int -> int
    requires g.Valid()
  {
    (p: int) => OwnerEnd(g, length, p)
  }

  /** What the detector finds at position `p` when it is given the bytes from `w` on. */
  ghost function SeenFrom<M>(at: Detector<M>, data: seq<byte>, w: int, p: int): seq<M>
    requires 0 <= w <= |data|
  {
    at(data[w..], p - w)
  }

  /** What the detector finds at position `p` when it is given the bytes below `e`. */
  ghost function SeenUpTo<M>(at: Detector<M>, data: seq<byte>, e: int, p: int): seq<M>
    requires 0 <= e <= |data|
  {
    at(data[..e], p)
  }

  /** What starts at a position does not depend on bytes more than `before` below it. */
  ghost predicate LeftLocal<M>(at: Detector<M>, before: nat) {
    forall data: seq<byte>, w: int, p: int ::
      0 <= w && w + before <= p < |data| ==> SeenFrom(at, data, w, p) == at(data, p)
  }

  /** Cutting the run `after` bytes or more past a position changes nothing about it. */
  ghost predicate RightLocal<M>(at: Detector<M>, run: seq<byte>, after: nat) {
    forall p: int, e: int ::
      0 <= p && p + after <= e <= |run| ==> SeenUpTo(at, run, e, p) == at(run, p)
  }

  /** A window that reads `[w, e)` sees at position `p` what the run cut at `e` shows there. */
  ghost predicate SeesCut<M>(at: Detector<M>, run: seq<byte>, w: int, e: int, p: int) {
    at(Slice(run, w, e), p - w) == at(Slice(run, 0, e), p)
  }

  ghost predicate SeesCuts<M>(at: Detector<M>, run: seq<byte>, w: int, e: int, lo: int, hi: int) {
    forall p {:trigger SeesCut(at, run, w, e, p)} :: lo <= p < hi ==> SeesCut(at, run, w, e, p)
  }

  /** The window at `w` sees every position it owns as the run cut at the window's end shows it. */
  ghost predicate WindowSees<M>(at: Detector<M>, run: seq<byte>, g: Grid, w: int) {
    SeesCuts(at, run, w, w + Want(g, |run|, w), SeamLo(g, w), SeamHi(g, |run|, w))
  }

  lemma {:induction false} SeesWindow<M>(at: Detector<M>, run: seq<byte>, g: Grid, w: int, e: int, lo: int, hi: int)
    requires SeesCuts(at, run, w, e, lo, hi)
    requires e == w + Want(g, |run|, w) && lo == SeamLo(g, w) && hi == SeamHi(g, |run|, w)
    ensures WindowSees(at, run, g, w)
  {
  }

  ghost predicate WindowsSee<M>(at: Detector<M>, run: seq<byte>, g: Grid, ws: seq<int>) {
    forall w {:trigger WindowSees(at, run, g, w)} :: w in ws ==> WindowSees(at, run, g, w)
  }

  /** A detector that looks back no further than a window's start does is not misled by it. */
  lemma {:induction false} LocalSeesCut<M>(at: Detector<M>, run: seq<byte>, w: int, e: int, p: int, before: nat)
    requires LeftLocal(at, before)
    requires 0 <= w <= p < e <= |run| && (w == 0 || w + before <= p)
    ensures SeesCut(at, run, w, e, p)
  {
    var cut := run[..e];
    assert cut[w..] == Slice(run, w, e) && cut == Slice(run, 0, e);
    if w == 0 {
      assert cut[0..] == cut;
    } else {
      assert SeenFrom(at, cut, w, p) == at(cut, p);
    }
  }

  lemma {:induction false} LocalWindowSees<M>(at: Detector<M>, run: seq<byte>, g: Grid, w: int, before: nat)
    requires g.Valid() && before <= g.Guard() && LeftLocal(at, before) && w in Windows(g, |run|)
    ensures WindowSees(at, run, g, w)
  {
    LaterWindows(g, |run|, 0, Windows(g, |run|), w);
    var e := w + Want(g, |run|, w);
    forall p | SeamLo(g, w) <= p < SeamHi(g, |run|, w) ensures SeesCut(at, run, w, e, p) {
      LocalSeesCut(at, run, w, e, p, before);
    }
  }

  /** The positions `[lo, hi)` of a run that one window, reading `[w, e)`, owns. */
  ghost predicate Owner(g: Grid, ends: int -> int, w: int, e: int, last: bool, lo: int, hi: int) {
    && 0 <= w <= lo <= hi <= e
    && (forall i :: 0 <= i < e - w ==> (Owns(g, i, w, last) <==> lo <= w + i < hi))
    && (forall p :: lo <= p < hi ==> ends(p) == e)
  }

  ghost function Between(lo: int, x: int, hi: int): int { Max(lo, Min(x, hi)) }

  lemma {:induction false} OnePosition<M>(at: Detector<M>, run: seq<byte>, g: Grid, ends: int -> int, w: int, e: int,
                                          last: bool, lo: int, hi: int, n: nat)
    requires SeesCuts(at, run, w, e, lo, hi) && Owner(g, ends, w, e, last, lo, hi) && n < e - w && e <= |run|
    ensures CutBelow(at, run, ends, Between(lo, w + n, hi)) + OwnedAt(at, Slice(run, w, e), g, w, last, n)
         == CutBelow(at, run, ends, Between(lo, w + n + 1, hi))
  {
    if lo <= w + n < hi {
      assert SeesCut(at, run, w, e, w + n);
      assert ends(w + n) == e;
    } else {
      AppendNothing(CutBelow(at, run, ends, Between(lo, w + n, hi)));
    }
  }

  /** Up to its local position `n`, a window has added exactly what its owned positions hold. */
  ghost predicate AddedTo<M>(at: Detector<M>, run: seq<byte>, g: Grid, ends: int -> int, w: int, e: int,
                             last: bool, lo: int, hi: int, n: nat)
    requires 0 <= lo <= hi
  {
    CutBelow(at, run, ends, lo) + OwnedBelow(at, Slice(run, w, e), g, w, last, n)
    == CutBelow(at, run, ends, Between(lo, w + n, hi))
  }

  lemma {:induction false} AddedNext<M>(at: Detector<M>, run: seq<byte>, g: Grid, ends: int -> int, w: int, e: int,
                                        last: bool, lo: int, hi: int, n: nat)
    requires SeesCuts(at, run, w, e, lo, hi) && Owner(g, ends, w, e, last, lo, hi) && 0 < n <= e - w && e <= |run|
    requires AddedTo(at, run, g, ends, w, e, last, lo, hi, n - 1)
    ensures AddedTo(at, run, g, ends, w, e, last, lo, hi, n)
  {
    OnePosition(at, run, g, ends, w, e, last, lo, hi, n - 1);
    Grow(CutBelow(at, run, ends, lo), OwnedBelow(at, Slice(run, w, e), g, w, last, n - 1),
         OwnedAt(at, Slice(run, w, e), g, w, last, n - 1),
         CutBelow(at, run, ends, Between(lo, w + n - 1, hi)), CutBelow(at, run, ends, Between(lo, w + n, hi)));
  }

  lemma {:induction false} NothingAdded<M>(at: Detector<M>, run: seq<byte>, g: Grid, ends: int -> int, w: int, e: int,
                                           last: bool, lo: int, hi: int, n: nat)
    requires 0 <= w <= lo <= hi && n == 0
    ensures AddedTo(at, run, g, ends, w, e, last, lo, hi, n)
  {
    AppendNothing(CutBelow(at, run, ends, lo));
  }

  lemma {:induction false} OneWindow<M>(at: Detector<M>, run: seq<byte>, g: Grid, ends: int -> int, w: int, e: int,
                                        last: bool, lo: int, hi: int, n: nat)
    requires SeesCuts(at, run, w, e, lo, hi) && Owner(g, ends, w, e, last, lo, hi) && n <= e - w && e <= |run|
    ensures AddedTo(at, run, g, ends, w, e, last, lo, hi, n)
  {
    if n == 0 {
      NothingAdded(at, run, g, ends, w, e, last, lo, hi, n);
    } else {
      OneWindow(at, run, g, ends, w, e, last, lo, hi, n - 1);
      AddedNext(at, run, g, ends, w, e, last, lo, hi, n);
    }
  }

  lemma {:induction false} OwnerWindow<M>(at: Detector<M>, run: seq<byte>, g: Grid, ends: int -> int, w: int, e: int,
                                          last: bool, lo: int, hi: int)
    requires SeesCuts(at, run, w, e, lo, hi) && Owner(g, ends, w, e, last, lo, hi) && e <= |run|
    ensures CutBelow(at, run, ends, lo) + WindowReports(at, Slice(run, w, e), g, w, last) == CutBelow(at, run, ends, hi)
  {
    OneWindow(at, run, g, ends, w, e, last, lo, hi, e - w);
  }

  /** From window `w` on, the owner of a position is found as it is from the first window. */
  ghost predicate OwnersFrom(g: Grid, length: int, w: int)
    requires g.Valid()
  {
    forall p :: SeamLo(g, w) <= p < length ==> OwnerFrom(g, length, 0, p) == OwnerFrom(g, length, w, p)
  }

  lemma {:induction false} OwnersHere(g: Grid, length: int, w: int, ws: seq<int>)
    requires Remaining(g, length, w, ws) && OwnersFrom(g, length, w)
    ensures Owner(g, OwnerEnds(g, length), w, w + Want(g, length, w), Last(g, length, w),
                  SeamLo(g, w), SeamHi(g, length, w))
    ensures !Last(g, length, w) ==> OwnersFrom(g, length, w + g.Step())
    ensures w + Want(g, length, w) <= length
  {
    RemainingStep(g, length, w, ws);
  }

  /** A window carries the scan from its first owned position to the next window's. */
  lemma {:induction false} WholeWindow<M>(at: Detector<M>, run: seq<byte>, g: Grid, w: int, ws: seq<int>)
    requires Remaining(g, |run|, w, ws) && OwnersFrom(g, |run|, w) && WindowSees(at, run, g, w)
    ensures SeamLo(g, w) >= 0 && SeamHi(g, |run|, w) >= 0
    ensures CutBelow(at, run, OwnerEnds(g, |run|), SeamLo(g, w)) + ReportsAt(at, run, g, w)
         == CutBelow(at, run, OwnerEnds(g, |run|), SeamHi(g, |run|, w))
  {
    OwnersHere(g, |run|, w, ws);
    OwnerWindow(at, run, g, OwnerEnds(g, |run|), w, w + Want(g, |run|, w), Last(g, |run|, w),
                SeamLo(g, w), SeamHi(g, |run|, w));
  }

  lemma {:induction false} SeeFirstAndRest<M>(at: Detector<M>, run: seq<byte>, g: Grid, ws: seq<int>)
    requires ws != [] && WindowsSee(at, run, g, ws)
    ensures WindowSees(at, run, g, ws[0]) && WindowsSee(at, run, g, ws[1..])
    ensures ScanReports(at, run, g, ws) == ReportsAt(at, run, g, ws[0]) + ScanReports(at, run, g, ws[1..])
  {
    assert ws[0] in ws;
    forall w | w in ws[1..] ensures WindowSees(at, run, g, w) { assert w in ws; }
  }

  /** From the first position window `w` owns, the windows `ws` report what the cut runs hold. */
  ghost predicate ReportsFrom<M>(at: Detector<M>, run: seq<byte>, g: Grid, w: int, ws: seq<int>)
    requires g.Valid()
  {
    var ends := OwnerEnds(g, |run|);
    && SeamLo(g, w) >= 0
    && CutBelow(at, run, ends, SeamLo(g, w)) + ScanReports(at, run, g, ws) == CutBelow(at, run, ends, |run|)
  }

  lemma {:induction false} LastReports<M>(at: Detector<M>, run: seq<byte>, g: Grid, w: int, ws: seq<int>)
    requires Remaining(g, |run|, w, ws) && OwnersFrom(g, |run|, w) && WindowsSee(at, run, g, ws) && Last(g, |run|, w)
    ensures ReportsFrom(at, run, g, w, ws)
  {
    RemainingStep(g, |run|, w, ws);
    SeeFirstAndRest(at, run, g, ws);
    WholeWindow(at, run, g, w, ws);
    AppendNothing(ReportsAt(at, run, g, w));
  }

  lemma {:induction false} FirstThenRest<M>(at: Detector<M>, run: seq<byte>, g: Grid, w: int, ws: seq<int>)
    requires Remaining(g, |run|, w, ws) && OwnersFrom(g, |run|, w) && WindowsSee(at, run, g, ws) && !Last(g, |run|, w)
    requires ws != [] && ReportsFrom(at, run, g, w + g.Step(), ws[1..])
    ensures ReportsFrom(at, run, g, w, ws)
  {
    var ends := OwnerEnds(g, |run|);
    RemainingStep(g, |run|, w, ws);
    SeeFirstAndRest(at, run, g, ws);
    WholeWindow(at, run, g, w, ws);
    Grow(CutBelow(at, run, ends, SeamLo(g, w)), ReportsAt(at, run, g, w), ScanReports(at, run, g, ws[1..]),
         CutBelow(at, run, ends, SeamHi(g, |run|, w)), CutBelow(at, run, ends, |run|));
  }

  lemma {:induction false} RemainingReports<M>(at: Detector<M>, run: seq<byte>, g: Grid, w: int, ws: seq<int>)
    requires Remaining(g, |run|, w, ws) && OwnersFrom(g, |run|, w) && WindowsSee(at, run, g, ws)
    ensures ReportsFrom(at, run, g, w, ws)
    decreases |ws|
  {
    RemainingStep(g, |run|, w, ws);
    if Last(g, |run|, w) {
      LastReports(at, run, g, w, ws);
    } else {
      OwnersHere(g, |run|, w, ws);
      SeeFirstAndRest(at, run, g, ws);
      RemainingReports(at, run, g, w + g.Step(), ws[1..]);
      FirstThenRest(at, run, g, w, ws);
    }
  }

  /** When every window sees the positions it owns as the cut run shows them, the owned reports of
      all windows, one window after the other, are what scanning each position up to its owner's
      end finds, in order and each once. */
  lemma {:induction false} SeenIsCut<M>(at: Detector<M>, run: seq<byte>, g: Grid)
    requires g.Valid()
    requires WindowsSee(at, run, g, Windows(g, |run|))
    ensures ScanReports(at, run, g, Windows(g, |run|)) == CutBelow(at, run, OwnerEnds(g, |run|), |run|)
  {
    if |run| > 0 {
      RemainingReports(at, run, g, 0, Windows(g, |run|));
    }
  }

  /** The owned reports of all windows, one window after the other, are exactly what scanning
      each position up to its owner's end finds, in order and each once. This needs of the
      detector only that it looks no further back than the guard. */
  lemma {:induction false} WindowedIsCut<M>(at: Detector<M>, run: seq<byte>, g: Grid, before: nat)
    requires g.Valid() && before <= g.Guard() && LeftLocal(at, before)
    ensures ScanReports(at, run, g, Windows(g, |run|)) == CutBelow(at, run, OwnerEnds(g, |run|), |run|)
  {
    forall w | w in Windows(g, |run|) ensures WindowSees(at, run, g, w) {
      LocalWindowSees(at, run, g, w, before);
    }
    SeenIsCut(at, run, g);
  }

  // ---- what a scan reports at a position --------------------------------------------------------

  lemma {:induction false} TaggedHas<M>(found: seq<M>, p: int, r: Report<M>)
    ensures r in Tagged(found, p) <==> r.offset == p && r.found in found
  {
    if r.offset == p && r.found in found {
      var i :| 0 <= i < |found| && found[i] == r.found;
      assert Tagged(found, p)[i] == r;
    }
  }

  lemma {:induction false} OwnedHas<M>(at: Detector<M>, data: seq<byte>, g: Grid, w: int, last: bool, n: nat,
                                       r: Report<M>)
    ensures r in OwnedBelow(at, data, g, w, last, n)
       <==> 0 <= r.offset - w < n && Owns(g, r.offset - w, w, last) && r.found in at(data, r.offset - w)
  {
    if n > 0 {
      OwnedHas(at, data, g, w, last, n - 1, r);
      TaggedHas(at(data, n - 1), w + n - 1, r);
    }
  }

  lemma {:induction false} WindowSize(run: seq<byte>, g: Grid, w: int)
    requires g.Valid() && w in Windows(g, |run|)
    ensures 0 <= w && |Slice(run, w, w + Want(g, |run|, w))| == Want(g, |run|, w)
  {
    LaterWindows(g, |run|, 0, Windows(g, |run|), w);
  }

  /** A window reports what it finds at the positions it owns. */
  lemma {:induction false} WindowHas<M>(at: Detector<M>, run: seq<byte>, g: Grid, w: int, r: Report<M>)
    requires g.Valid() && w in Windows(g, |run|)
    ensures r in ReportsAt(at, run, g, w)
       <==> Reports(g, |run|, w, r.offset) && r.found in at(Slice(run, w, w + Want(g, |run|, w)), r.offset - w)
  {
    WindowSize(run, g, w);
    DataHas(at, Slice(run, w, w + Want(g, |run|, w)), g, w, Last(g, |run|, w), r);
  }

  lemma {:induction false} DataHas<M>(at: Detector<M>, data: seq<byte>, g: Grid, w: int, last: bool, r: Report<M>)
    ensures r in WindowReports(at, data, g, w, last)
       <==> 0 <= r.offset - w < |data| && Owns(g, r.offset - w, w, last) && r.found in at(data, r.offset - w)
  {
    OwnedHas(at, data, g, w, last, |data|, r);
  }

  lemma {:induction false} ScanHas<M>(at: Detector<M>, run: seq<byte>, g: Grid, ws: seq<int>, r: Report<M>)
    ensures r in ScanReports(at, run, g, ws) <==> exists w :: w in ws && r in ReportsAt(at, run, g, w)
  {
    if ws != [] {
      ScanHas(at, run, g, ws[1..], r);
      assert ws[0] in ws;
      assert forall w :: w in ws <==> w == ws[0] || w in ws[1..];
    }
  }

  /** What the owner of a position finds there in the bytes it reads. */
  ghost function OwnerFinds<M>(at: Detector<M>, run: seq<byte>, g: Grid, p: int): seq<M>
    requires g.Valid()
  {
    FindsFrom(at, run, g, OwnerFrom(g, |run|, 0, p), p)
  }

  /** What the window at `w` finds at position `p`. */
  ghost function FindsFrom<M>(at: Detector<M>, run: seq<byte>, g: Grid, w: int, p: int): seq<M> {
    at(Slice(run, w, w + Want(g, |run|, w)), p - w)
  }

  lemma {:induction false} OwnerHas<M>(at: Detector<M>, run: seq<byte>, g: Grid, r: Report<M>)
    requires g.Valid() && 0 <= r.offset < |run|
    ensures OwnerFrom(g, |run|, 0, r.offset) in Windows(g, |run|)
    ensures r in ReportsAt(at, run, g, OwnerFrom(g, |run|, 0, r.offset))
       <==> r.found in OwnerFinds(at, run, g, r.offset)
  {
    OwnerIsWindow(g, |run|, r.offset);
    WindowFinds(at, run, g, OwnerFrom(g, |run|, 0, r.offset), r);
  }

  lemma {:induction false} WindowFinds<M>(at: Detector<M>, run: seq<byte>, g: Grid, w: int, r: Report<M>)
    requires g.Valid() && w in Windows(g, |run|) && Reports(g, |run|, w, r.offset)
    ensures r in ReportsAt(at, run, g, w) <==> r.found in FindsFrom(at, run, g, w, r.offset)
  {
    WindowHas(at, run, g, w, r);
  }

  lemma {:induction false} OwnerIsWindow(g: Grid, length: int, p: int)
    requires g.Valid() && 0 <= p < length
    ensures OwnerFrom(g, length, 0, p) in Windows(g, length) && Reports(g, length, OwnerFrom(g, length, 0, p), p)
  {
    ExactlyOneOwner(g, length, p);
  }

  lemma {:induction false} WindowHasAt<M>(at: Detector<M>, run: seq<byte>, g: Grid, w: int, e: int, q: int,
                                          r: Report<M>)
    requires g.Valid() && w in Windows(g, |run|) && e == w + Want(g, |run|, w) && r.offset - w == q
    requires Reports(g, |run|, w, r.offset) && r.found in at(Slice(run, w, e), q)
    ensures r in ReportsAt(at, run, g, w)
  {
    WindowHas(at, run, g, w, r);
  }

  lemma {:induction false} OwnerFindsIn<M>(at: Detector<M>, run: seq<byte>, g: Grid, p: int, w: int, e: int)
    requires g.Valid() && w == OwnerFrom(g, |run|, 0, p) && e == OwnerEnd(g, |run|, p)
    ensures OwnerFinds(at, run, g, p) == at(Slice(run, w, e), p - w)
  {
  }

  /** The window that reports something is the owner of its position. */
  lemma {:induction false} OwnWindow<M>(at: Detector<M>, run: seq<byte>, g: Grid, w: int, r: Report<M>)
    requires g.Valid() && w in Windows(g, |run|) && r in ReportsAt(at, run, g, w)
    ensures 0 <= r.offset < |run| && w == OwnerFrom(g, |run|, 0, r.offset)
  {
    WindowHas(at, run, g, w, r);
    OnlyOwner(g, |run|, w, r.offset);
  }

  lemma {:induction false} OnlyOwner(g: Grid, length: int, w: int, p: int)
    requires g.Valid() && w in Windows(g, length) && Reports(g, length, w, p)
    ensures 0 <= p < length && w == OwnerFrom(g, length, 0, p)
  {
    LaterWindows(g, length, 0, Windows(g, length), w);
    ExactlyOneOwner(g, length, p);
  }

  /** Whatever the detector and the guard, a windowed scan reports at a position precisely what the
      position's owner finds there. */
  lemma {:induction false} OwnerReports<M>(at: Detector<M>, run: seq<byte>, g: Grid, r: Report<M>)
    requires g.Valid()
    ensures r in ScanReports(at, run, g, Windows(g, |run|))
       <==> 0 <= r.offset < |run| && r.found in OwnerFinds(at, run, g, r.offset)
  {
    ScanHas(at, run, g, Windows(g, |run|), r);
    if r in ScanReports(at, run, g, Windows(g, |run|)) {
      var w :| w in Windows(g, |run|) && r in ReportsAt(at, run, g, w);
      OwnWindow(at, run, g, w, r);
    }
    if 0 <= r.offset < |run| { OwnerHas(at, run, g, r); }
  }

  // ---- when exactly the two scans agree -------------------------------------------------------

  lemma {:induction false} CutIsMatches<M>(at: Detector<M>, cut: Detector<M>, run: seq<byte>, ends: int -> int, n: nat)
    requires forall p :: 0 <= p < n ==> SeenTo(at, run, ends, p) == cut(run, p)
    ensures CutBelow(at, run, ends, n) == MatchesBelow(cut, run, n)
  {
    if n > 0 { CutIsMatches(at, cut, run, ends, n - 1); }
  }

  lemma {:induction false} OffsetsBelow<M>(at: Detector<M>, run: seq<byte>, ends: int -> int, n: nat)
    ensures forall i :: 0 <= i < |CutBelow(at, run, ends, n)| ==> CutBelow(at, run, ends, n)[i].offset < n
    ensures forall i :: 0 <= i < |MatchesBelow(at, run, n)| ==> MatchesBelow(at, run, n)[i].offset < n
  {
    if n > 0 { OffsetsBelow(at, run, ends, n - 1); }
  }

  lemma {:induction false} NotShorter<M>(x: seq<Report<M>>, u: seq<Report<M>>, y: seq<Report<M>>, v: seq<Report<M>>,
                                         p: int)
    requires x + u == y + v
    requires forall i :: 0 <= i < |y| ==> y[i].offset < p
    requires forall i :: 0 <= i < |u| ==> u[i].offset == p
    ensures |y| <= |x|
  {
    var all := x + u;
    assert |x| < |all| ==> all[|x|] == u[0];
    assert forall i :: 0 <= i < |y| ==> all[i] == y[i];
  }

  /** Two report lists whose last position is `p` and that are equal, agree at `p` and before. */
  lemma {:induction false} SameCut<M>(x: seq<Report<M>>, u: seq<Report<M>>, y: seq<Report<M>>, v: seq<Report<M>>,
                                      p: int)
    requires x + u == y + v
    requires forall i :: 0 <= i < |x| ==> x[i].offset < p
    requires forall i :: 0 <= i < |y| ==> y[i].offset < p
    requires forall i :: 0 <= i < |u| ==> u[i].offset == p
    requires forall i :: 0 <= i < |v| ==> v[i].offset == p
    ensures x == y && u == v
  {
    NotShorter(x, u, y, v, p);
    NotShorter(y, v, x, u, p);
    assert x == (x + u)[..|x|] && y == (y + v)[..|y|];
    assert u == (x + u)[|x|..] && v == (y + v)[|y|..];
  }

  lemma {:induction false} TaggedInjective<M>(x: seq<M>, y: seq<M>, p: int)
    requires Tagged(x, p) == Tagged(y, p)
    ensures x == y
  {
    forall i | 0 <= i < |x| ensures x[i] == y[i] {
      assert Tagged(x, p)[i] == Tagged(y, p)[i];
    }
  }

  lemma {:induction false} SeenIfCutIsWhole<M>(at: Detector<M>, run: seq<byte>, ends: int -> int, n: nat)
    requires n <= |run| && CutBelow(at, run, ends, n) == MatchesBelow(at, run, n)
    ensures forall p :: 0 <= p < n ==> SeenTo(at, run, ends, p) == at(run, p)
  {
    if n > 0 {
      OffsetsBelow(at, run, ends, n - 1);
      SameCut(CutBelow(at, run, ends, n - 1), Tagged(SeenTo(at, run, ends, n - 1), n - 1),
              MatchesBelow(at, run, n - 1), Tagged(at(run, n - 1), n - 1), n - 1);
      TaggedInjective(SeenTo(at, run, ends, n - 1), at(run, n - 1), n - 1);
      SeenIfCutIsWhole(at, run, ends, n - 1);
    }
  }

  /** Windowed scanning equals whole-run scanning exactly when cutting the run at an owner's end
      never changes what starts at a position that owner reports. */
  lemma {:induction false} WindowedIsWholeExactly<M>(at: Detector<M>, run: seq<byte>, g: Grid, before: nat)
    requires g.Valid() && before <= g.Guard() && LeftLocal(at, before)
    ensures ScanReports(at, run, g, Windows(g, |run|)) == WholeReports(at, run)
       <==> forall p :: 0 <= p < |run| ==> SeenTo(at, run, OwnerEnds(g, |run|), p) == at(run, p)
  {
    var ends := OwnerEnds(g, |run|);
    WindowedIsCut(at, run, g, before);
    if CutBelow(at, run, ends, |run|) == MatchesBelow(at, run, |run|) {
      SeenIfCutIsWhole(at, run, ends, |run|);
    }
    if forall p :: 0 <= p < |run| ==> SeenTo(at, run, ends, p) == at(run, p) {
      CutIsMatches(at, at, run, ends, |run|);
    }
  }

  /** Windowed scanning equals whole-run scanning for every detector local to the guaranteed
      context: `overlap / 2` bytes before a position, `overlap - overlap / 2 + 1` from it on. */
  lemma {:induction false} WindowedIsWhole<M>(at: Detector<M>, run: seq<byte>, g: Grid, before: nat, after: nat)
    requires g.Valid()
    requires before <= g.overlap / 2 && LeftLocal(at, before)
    requires after <= g.overlap - g.overlap / 2 + 1 && RightLocal(at, run, after)
    ensures ScanReports(at, run, g, Windows(g, |run|)) == WholeReports(at, run)
  {
    forall p | 0 <= p < |run| ensures SeenTo(at, run, OwnerEnds(g, |run|), p) == at(run, p) {
      ExactlyOneOwner(g, |run|, p);
      var e := OwnerEnd(g, |run|, p);
      assert Slice(run, 0, e) == run[..e];
      if e == |run| { TakeAll(run); } else { assert SeenUpTo(at, run, e, p) == at(run, p); }
    }
    WindowedIsWholeExactly(at, run, g, before);
  }
}
