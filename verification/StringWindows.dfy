/** What extracting strings window by window reports of one fully read run: strings by their start,
    cut where the owning window ends, and which ones that leaves out, counts as clipped or reports
    again (app/tools_strings.py with app/scan_plan.py). */
module StringWindows {
  import opened Sequences
  import opened ScanWindows
  import opened WindowedDetection
  import opened Strings

  /** How far below a position its string start is decided. */
  function Reach(w: Wanted): nat { if w.utf16 then 2 else 1 }

  // ---- strings are local --------------------------------------------------------------------

  lemma {:induction false} CharsShift(data: seq<byte>, w: int, p: int, wide: bool)
    requires 0 <= w <= p && w <= |data|
    ensures CharAt(data[w..], p - w, wide) == CharAt(data, p, wide)
    ensures Chars(data[w..], p - w, wide) == Chars(data, p, wide)
    decreases |data| - p
  {
    if CharAt(data, p, wide) {
      CharsShift(data, w, p + Width(wide), wide);
    }
  }

  lemma {:induction false} TextShift(wide: bool, minLength: int, data: seq<byte>, w: int, p: int)
    requires 0 <= w && w + Width(wide) <= p && w <= |data|
    ensures TextAt(wide, minLength, data[w..], p - w) == TextAt(wide, minLength, data, p)
  {
    CharsShift(data, w, p, wide);
    CharsShift(data, w, p - Width(wide), wide);
  }

  lemma {:induction false} StringsAreLocal(w: Wanted)
    ensures LeftLocal(StringsOf(w), Reach(w))
  {
    forall data: seq<byte>, v: int, p: int | 0 <= v && v + Reach(w) <= p < |data|
      ensures SeenFrom(StringsOf(w), data, v, p) == StringsOf(w)(data, p)
    {
      if w.ascii { TextShift(false, w.minLength, data, v, p); }
      if w.utf16 { TextShift(true, w.minLength, data, v, p); }
    }
  }

  // ---- strings cut at an end ------------------------------------------------------------------

  /** Whole characters that fit in `n` bytes. */
  function Fit(n: int, wide: bool): int { if wide then n / 2 else n }

  /** The string that starts at `p`, as far as it lies below `e`. */
  function CutText(wide: bool, minLength: int, run: seq<byte>, e: int, p: int): seq<Text> {
    if StartsAt(run, p, wide) && Min(Chars(run, p, wide), Fit(e - p, wide)) >= minLength
    then [Text(wide, Min(Chars(run, p, wide), Fit(e - p, wide)))] else []
  }

  /** The strings of a run, each cut where `ends` says. */
  function CutStringsOf(w: Wanted, ends: int -> int): Detector<Text> {
    (run: seq<byte>, p: int) =>
      (if w.ascii then CutText(false, w.minLength, run, ends(p), p) else [])
      + (if w.utf16 then CutText(true, w.minLength, run, ends(p), p) else [])
  }

  lemma {:induction false} CharsBelow(run: seq<byte>, e: int, p: int, wide: bool)
    requires 0 <= p <= e <= |run|
    ensures CharAt(run[..e], p, wide) <==> CharAt(run, p, wide) && p + Width(wide) <= e
    ensures Chars(run[..e], p, wide) == Min(Chars(run, p, wide), Fit(e - p, wide))
    decreases e - p
  {
    if CharAt(run, p, wide) && p + Width(wide) <= e {
      CharsBelow(run, e, p + Width(wide), wide);
    }
  }

  lemma {:induction false} TextBelow(wide: bool, minLength: int, run: seq<byte>, e: int, p: int)
    requires minLength >= 1 && 0 <= p < e <= |run|
    ensures TextAt(wide, minLength, run[..e], p) == CutText(wide, minLength, run, e, p)
  {
    CharsBelow(run, e, p, wide);
    if p >= Width(wide) { CharsBelow(run, e, p - Width(wide), wide); }
  }

  lemma {:induction false} CutIsCutStrings(w: Wanted, run: seq<byte>, ends: int -> int, n: nat)
    requires w.minLength >= 1 && n <= |run|
    requires forall p :: 0 <= p < |run| ==> p < ends(p) <= |run|
    ensures CutBelow(StringsOf(w), run, ends, n) == MatchesBelow(CutStringsOf(w, ends), run, n)
  {
    var at, cut := StringsOf(w), CutStringsOf(w, ends);
    forall p | 0 <= p < n ensures SeenTo(at, run, ends, p) == cut(run, p) { SeenIsCutText(w, run, ends, p); }
    CutIsMatches(at, cut, run, ends, n);
  }

  lemma {:induction false} SeenIsCutText(w: Wanted, run: seq<byte>, ends: int -> int, p: int)
    requires w.minLength >= 1 && 0 <= p < ends(p) <= |run|
    ensures SeenTo(StringsOf(w), run, ends, p) == CutStringsOf(w, ends)(run, p)
  {
    assert Slice(run, 0, ends(p)) == run[..ends(p)];
    TextBelow(false, w.minLength, run, ends(p), p);
    TextBelow(true, w.minLength, run, ends(p), p);
  }

  predicate Looks(w: Wanted, wide: bool) { if wide then w.utf16 else w.ascii }

  /** Whether the ownership guard hides the tails of strings: for each encoding looked for, either
      the guard is at least a character wide, or what is left of a window after the guard is too
      short to be reported. */
  predicate Guarded(w: Wanted, g: Grid) {
    forall wide :: Looks(w, wide) ==> Width(wide) <= g.Guard() || Fit(g.bytes - g.Guard(), wide) < w.minLength
  }

  lemma {:induction false} TooShort(wide: bool, minLength: int, data: seq<byte>, p: int)
    requires minLength >= 1 && Fit(|data| - p, wide) < minLength
    ensures TextAt(wide, minLength, data, p) == []
  {
  }

  /** In a later window than the first, an owned position holds the text it has in the cut run. */
  lemma {:induction false} TextSeen(w: Wanted, wide: bool, run: seq<byte>, g: Grid, v: int, e: int, p: int)
    requires Guarded(w, g) && Looks(w, wide) && w.minLength >= 1
    requires 0 < v && 0 <= g.Guard() && v + g.Guard() <= p < e <= |run| && e - v <= g.bytes
    ensures TextAt(wide, w.minLength, run[v..e], p - v) == TextAt(wide, w.minLength, run[..e], p)
  {
    var cut := run[..e];
    assert cut[v..] == run[v..e];
    if Width(wide) <= g.Guard() {
      TextShift(wide, w.minLength, cut, v, p);
    } else {
      TooShort(wide, w.minLength, run[v..e], p - v);
      TooShort(wide, w.minLength, cut, p);
    }
  }

  lemma {:induction false} PositionsSeen(w: Wanted, run: seq<byte>, g: Grid, v: int, e: int, lo: int, hi: int)
    requires g.Valid() && Guarded(w, g) && w.minLength >= 1
    requires 0 <= v <= lo && hi <= e <= |run| && e - v <= g.bytes && (v == 0 || v + g.Guard() <= lo)
    ensures SeesCuts(StringsOf(w), run, v, e, lo, hi)
  {
    var at := StringsOf(w);
    forall p | lo <= p < hi ensures SeesCut(at, run, v, e, p) {
      assert Slice(run, v, e) == run[v..e] && Slice(run, 0, e) == run[..e];
      if v > 0 {
        if w.ascii { TextSeen(w, false, run, g, v, e, p); }
        if w.utf16 { TextSeen(w, true, run, g, v, e, p); }
      }
    }
  }

  /** Windowed extraction reports each string by its start, as far as it lies below its owner's
      end, when that part is long enough to be reported, and nothing else. */
  lemma {:induction false} StringsAreCut(w: Wanted, run: seq<byte>, g: Grid)
    requires g.Valid() && Guarded(w, g) && w.minLength >= 1
    ensures ScanReports(StringsOf(w), run, g, Windows(g, |run|))
         == WholeReports(CutStringsOf(w, OwnerEnds(g, |run|)), run)
  {
    AllWindowsSee(w, run, g);
    SeenIsCut(StringsOf(w), run, g);
    OwnersEnd(g, |run|);
    CutIsCutStrings(w, run, OwnerEnds(g, |run|), |run|);
  }

  lemma {:induction false} AllWindowsSee(w: Wanted, run: seq<byte>, g: Grid)
    requires g.Valid() && Guarded(w, g) && w.minLength >= 1
    ensures WindowsSee(StringsOf(w), run, g, Windows(g, |run|))
  {
    var at, ws := StringsOf(w), Windows(g, |run|);
    forall v | v in ws ensures WindowSees(at, run, g, v) { OneWindowSees(w, run, g, v); }
  }

  lemma {:induction false} OneWindowSees(w: Wanted, run: seq<byte>, g: Grid, v: int)
    requires g.Valid() && Guarded(w, g) && w.minLength >= 1 && v in Windows(g, |run|)
    ensures WindowSees(StringsOf(w), run, g, v)
  {
    WindowShare(g, |run|, v);
    var e, lo, hi := v + Want(g, |run|, v), SeamLo(g, v), SeamHi(g, |run|, v);
    PositionsSeen(w, run, g, v, e, lo, hi);
    SeesWindow(StringsOf(w), run, g, v, e, lo, hi);
  }

  lemma {:induction false} OwnersEnd(g: Grid, length: int)
    requires g.Valid()
    ensures forall p :: 0 <= p < length ==> p < OwnerEnds(g, length)(p) <= length
  {
    forall p | 0 <= p < length ensures p < OwnerEnds(g, length)(p) <= length {
      ExactlyOneOwner(g, length, p);
    }
  }

  // ---- strings that fit -----------------------------------------------------------------------

  /** Every string of the run spans at most `limit` bytes. */
  ghost predicate Short(run: seq<byte>, w: Wanted, limit: int) {
    forall p, wide :: StartsAt(run, p, wide) && (if wide then w.utf16 else w.ascii) ==>
      Chars(run, p, wide) * Width(wide) <= limit
  }

  lemma {:induction false} ShortIsUncut(wide: bool, minLength: int, run: seq<byte>, e: int, p: int)
    requires StartsAt(run, p, wide) ==> p + Chars(run, p, wide) * Width(wide) <= e
    ensures CutText(wide, minLength, run, e, p) == TextAt(wide, minLength, run, p)
  {
    if StartsAt(run, p, wide) { assert Chars(run, p, wide) <= Fit(e - p, wide); }
  }

  /** When no string spans more than `overlap - overlap / 2` bytes, windowed extraction finds
      exactly the strings of the whole run. */
  lemma {:induction false} ShortStringsWhole(w: Wanted, run: seq<byte>, g: Grid)
    requires g.Valid() && Guarded(w, g) && w.minLength >= 1
    requires Short(run, w, g.overlap - g.overlap / 2)
    ensures ScanReports(StringsOf(w), run, g, Windows(g, |run|)) == WholeReports(StringsOf(w), run)
  {
    StringsAreCut(w, run, g);
    var ends := OwnerEnds(g, |run|);
    forall p | 0 <= p < |run| ensures CutStringsOf(w, ends)(run, p) == StringsOf(w)(run, p) {
      ExactlyOneOwner(g, |run|, p);
      if w.ascii { ShortIsUncut(false, w.minLength, run, ends(p), p); }
      if w.utf16 { ShortIsUncut(true, w.minLength, run, ends(p), p); }
    }
    SameMatches(CutStringsOf(w, ends), StringsOf(w), run, |run|);
  }

  lemma {:induction false} SameMatches(x: Detector<Text>, y: Detector<Text>, run: seq<byte>, n: nat)
    requires n <= |run| && forall p :: 0 <= p < |run| ==> x(run, p) == y(run, p)
    ensures MatchesBelow(x, run, n) == MatchesBelow(y, run, n)
  {
    if n > 0 { SameMatches(x, y, run, n - 1); }
  }

  // ---- strings that are lost --------------------------------------------------------------------

  /** Some report says that a string of this encoding starts at `p`. */
  ghost predicate Reported(reports: seq<Report<Text>>, p: int, wide: bool) {
    exists i :: 0 <= i < |reports| && reports[i].offset == p && reports[i].found.wide == wide
  }

  lemma {:induction false} ReportedBelow(at: Detector<Text>, run: seq<byte>, n: nat, p: int, wide: bool)
    ensures Reported(MatchesBelow(at, run, n), p, wide)
       <==> 0 <= p < n && exists i :: 0 <= i < |at(run, p)| && at(run, p)[i].wide == wide
  {
    if n > 0 {
      ReportedBelow(at, run, n - 1, p, wide);
      ReportedEither(MatchesBelow(at, run, n - 1), Tagged(at(run, n - 1), n - 1), p, wide);
    }
  }

  lemma {:induction false} ReportedEither(x: seq<Report<Text>>, y: seq<Report<Text>>, p: int, wide: bool)
    ensures Reported(x + y, p, wide) <==> Reported(x, p, wide) || Reported(y, p, wide)
  {
    if i :| 0 <= i < |x| && x[i].offset == p && x[i].found.wide == wide { assert (x + y)[i] == x[i]; }
    if i :| 0 <= i < |y| && y[i].offset == p && y[i].found.wide == wide { assert (x + y)[|x| + i] == y[i]; }
    if i :| 0 <= i < |x + y| && (x + y)[i].offset == p && (x + y)[i].found.wide == wide {
      assert i >= |x| ==> (x + y)[i] == y[i - |x|];
    }
  }

  lemma {:induction false} CutHasWide(w: Wanted, ends: int -> int, run: seq<byte>, p: int, wide: bool)
    ensures (exists i :: 0 <= i < |CutStringsOf(w, ends)(run, p)| && CutStringsOf(w, ends)(run, p)[i].wide == wide)
       <==> Looks(w, wide) && CutText(wide, w.minLength, run, ends(p), p) != []
  {
    var a := if w.ascii then CutText(false, w.minLength, run, ends(p), p) else [];
    var b := if w.utf16 then CutText(true, w.minLength, run, ends(p), p) else [];
    var found := CutStringsOf(w, ends)(run, p);
    assert found == a + b;
    assert |a| <= 1 && |b| <= 1;
    if Looks(w, wide) && CutText(wide, w.minLength, run, ends(p), p) != [] {
      assert found[if wide then |a| else 0].wide == wide;
    }
  }

  ghost predicate HasWide(found: seq<Text>, wide: bool) { exists m :: m in found && m.wide == wide }

  lemma {:induction false} FoundWide(w: Wanted, data: seq<byte>, q: int, wide: bool)
    requires Looks(w, wide)
    ensures HasWide(StringsOf(w)(data, q), wide) <==> TextAt(wide, w.minLength, data, q) != []
  {
    var found := TextAt(wide, w.minLength, data, q);
    assert forall m :: m in StringsOf(w)(data, q) <==>
      (w.ascii && m in TextAt(false, w.minLength, data, q)) || (w.utf16 && m in TextAt(true, w.minLength, data, q));
    if found != [] { assert found[0] in StringsOf(w)(data, q); }
  }

  /** Where a string starts, any window that holds the start takes it for one, and finds as much of it as
      it sees. */
  lemma {:induction false} StartIsSeen(wide: bool, minLength: int, run: seq<byte>, v: int, e: int, p: int)
    requires minLength >= 1 && 0 <= v <= p < e <= |run| && TextAt(wide, minLength, run, p) != []
    ensures TextAt(wide, minLength, run[v..e], p - v) == CutText(wide, minLength, run, e, p)
  {
    var cut := run[..e];
    assert cut[v..] == run[v..e];
    TextBelow(wide, minLength, run, e, p);
    CharsShift(cut, v, p, wide);
    CharsBelow(run, e, p, wide);
    if v <= p - Width(wide) {
      CharsShift(cut, v, p - Width(wide), wide);
      CharsBelow(run, e, p - Width(wide), wide);
    }
  }

  lemma {:induction false} SeenFits(wide: bool, minLength: int, run: seq<byte>, v: int, e: int, p: int)
    requires minLength >= 1 && 0 <= v <= p < e <= |run| && TextAt(wide, minLength, run, p) != []
    ensures TextAt(wide, minLength, Slice(run, v, e), p - v) != [] <==> Fit(e - p, wide) >= minLength
  {
    SliceIs(run, v, e);
    StartIsSeen(wide, minLength, run, v, e, p);
    CutFits(wide, minLength, run, e, p);
  }

  lemma {:induction false} CutFits(wide: bool, minLength: int, run: seq<byte>, e: int, p: int)
    requires TextAt(wide, minLength, run, p) != []
    ensures CutText(wide, minLength, run, e, p) != [] <==> Fit(e - p, wide) >= minLength
  {
  }

  lemma {:induction false} ReportedIsFound(w: Wanted, run: seq<byte>, g: Grid, p: int, wide: bool)
    requires g.Valid() && 0 <= p < |run|
    ensures Reported(ScanReports(StringsOf(w), run, g, Windows(g, |run|)), p, wide)
       <==> HasWide(OwnerFinds(StringsOf(w), run, g, p), wide)
  {
    ReportedByOwner(StringsOf(w), run, g, p, wide);
  }

  lemma {:induction false} ReportedByOwner(at: Detector<Text>, run: seq<byte>, g: Grid, p: int, wide: bool)
    requires g.Valid() && 0 <= p < |run|
    ensures Reported(ScanReports(at, run, g, Windows(g, |run|)), p, wide) <==> HasWide(OwnerFinds(at, run, g, p), wide)
  {
    var reports, found := ScanReports(at, run, g, Windows(g, |run|)), OwnerFinds(at, run, g, p);
    forall m ensures Report(p, m) in reports <==> m in found { OwnerReports(at, run, g, Report(p, m)); }
    ReportsAndFound(reports, found, p, wide);
  }

  lemma {:induction false} ReportsAndFound(reports: seq<Report<Text>>, found: seq<Text>, p: int, wide: bool)
    requires forall m :: Report(p, m) in reports <==> m in found
    ensures Reported(reports, p, wide) <==> HasWide(found, wide)
  {
    if i :| 0 <= i < |reports| && reports[i].offset == p && reports[i].found.wide == wide {
      assert reports[i] == Report(p, reports[i].found);
    }
    if m :| m in found && m.wide == wide {
      var i :| 0 <= i < |reports| && reports[i] == Report(p, m);
    }
  }

  /** A string of a run is reported if and only if enough characters of it lie below its owner's
      end. */
  lemma {:induction false} StringReported(w: Wanted, run: seq<byte>, g: Grid, p: int, wide: bool)
    requires g.Valid() && w.minLength >= 1 && Looks(w, wide)
    requires TextAt(wide, w.minLength, run, p) != []
    ensures Reported(ScanReports(StringsOf(w), run, g, Windows(g, |run|)), p, wide)
       <==> Fit(OwnerEnd(g, |run|, p) - p, wide) >= w.minLength
  {
    StartsInside(run, p, wide);
    ReportedIsFound(w, run, g, p, wide);
    StartIsFound(w, run, g, p, wide);
  }

  lemma {:induction false} StartsInside(run: seq<byte>, p: int, wide: bool)
    ensures StartsAt(run, p, wide) ==> 0 <= p < |run|
  {
  }

  lemma {:induction false} StartIsFound(w: Wanted, run: seq<byte>, g: Grid, p: int, wide: bool)
    requires g.Valid() && w.minLength >= 1 && Looks(w, wide) && 0 <= p < |run|
    requires TextAt(wide, w.minLength, run, p) != []
    ensures HasWide(OwnerFinds(StringsOf(w), run, g, p), wide)
       <==> Fit(OwnerEnd(g, |run|, p) - p, wide) >= w.minLength
  {
    var v, e := OwnerFrom(g, |run|, 0, p), OwnerEnd(g, |run|, p);
    OwnerSpan(g, |run|, p);
    OwnerFindsIn(StringsOf(w), run, g, p, v, e);
    FoundInBytes(w, run, v, e, p, wide);
  }

  lemma {:induction false} FoundInBytes(w: Wanted, run: seq<byte>, v: int, e: int, p: int, wide: bool)
    requires w.minLength >= 1 && Looks(w, wide) && 0 <= v <= p < e <= |run|
    requires TextAt(wide, w.minLength, run, p) != []
    ensures HasWide(StringsOf(w)(Slice(run, v, e), p - v), wide)
       <==> Fit(e - p, wide) >= w.minLength
  {
    FoundWide(w, Slice(run, v, e), p - v, wide);
    SeenFits(wide, w.minLength, run, v, e, p);
  }

  lemma {:induction false} OwnerSpan(g: Grid, length: int, p: int)
    requires g.Valid() && 0 <= p < length
    ensures 0 <= OwnerFrom(g, length, 0, p) <= p < OwnerEnd(g, length, p) <= length
  {
    ExactlyOneOwner(g, length, p);
    WindowShare(g, length, OwnerFrom(g, length, 0, p));
  }

  /** The fewest bytes an owner sees from one of its positions on hold the shortest string. */
  predicate SeamFits(w: Wanted, g: Grid) {
    forall wide :: Looks(w, wide) ==> w.minLength <= Fit(g.overlap - g.overlap / 2 + 1, wide)
  }

  /** The byte at `i` of letters that start at `p`. */
  function Letter(i: int, p: int, wide: bool): byte { if wide && (i - p) % 2 != 0 then 0 else 65 }

  /** Letters of one encoding from `p` on, zeros below `lead`. */
  function Letters(lead: int, n: nat, p: int, wide: bool): (run: seq<byte>)
    ensures |run| == n && forall i :: 0 <= i < n ==> run[i] == if i < lead then 0 else Letter(i, p, wide)
  {
    seq(n, i => if i < lead then 0 else Letter(i, p, wide))
  }

  /** From `p` on, nothing but characters of one encoding. */
  ghost predicate LettersFrom(data: seq<byte>, p: int, wide: bool) {
    forall i :: p <= i < |data| && 0 <= i ==> data[i] == Letter(i, p, wide)
  }

  lemma {:induction false} NextLetter(i: int, p: int, wide: bool)
    ensures Letter(i, p + Width(wide), wide) == Letter(i, p, wide)
  {
    if wide { assert (i - (p + 2)) % 2 == (i - p) % 2; }
  }

  lemma {:induction false} LetterStarts(data: seq<byte>, p: int, wide: bool)
    requires 0 <= p <= |data| && LettersFrom(data, p, wide)
    ensures CharAt(data, p, wide) <==> p + Width(wide) <= |data|
    ensures LettersFrom(data, p + Width(wide), wide)
  {
    forall i | p + Width(wide) <= i < |data| ensures data[i] == Letter(i, p + Width(wide), wide) {
      NextLetter(i, p, wide);
    }
    assert Letter(p, p, wide) == 65 && (wide ==> Letter(p + 1, p, wide) == 0);
  }

  lemma {:induction false} LetterChars(data: seq<byte>, p: int, wide: bool)
    requires 0 <= p <= |data| && LettersFrom(data, p, wide)
    ensures Chars(data, p, wide) == Fit(|data| - p, wide)
    decreases |data| - p
  {
    LetterStarts(data, p, wide);
    if p + Width(wide) <= |data| { LetterChars(data, p + Width(wide), wide); }
  }

  /** A string that starts at `p` because nothing is printed before it. */
  lemma {:induction false} LetterText(minLength: int, data: seq<byte>, p: int, wide: bool)
    requires 0 <= p <= |data| && LettersFrom(data, p, wide) && Fit(|data| - p, wide) >= minLength >= 1
    requires p < Width(wide) || data[p - Width(wide)] == 0
    ensures TextAt(wide, minLength, data, p) == [Text(wide, Fit(|data| - p, wide))]
  {
    LetterChars(data, p, wide);
    LetterStarts(data, p, wide);
  }

  /** The last position of the first window's share, where the fewest bytes follow. */
  function Seam(g: Grid): int { g.Step() + g.Guard() - 1 }

  /** Bytes of some characters. */
  function Span(chars: int, wide: bool): int { if wide then 2 * chars else chars }

  /** A run whose one string starts at the seam and has exactly `minLength` characters. */
  function SeamRun(w: Wanted, g: Grid, wide: bool): seq<byte>
    requires g.Valid() && w.minLength >= 1
  {
    Letters(Seam(g), Seam(g) + Span(w.minLength, wide), Seam(g), wide)
  }

  lemma {:induction false} SeamText(minLength: int, p: nat, wide: bool)
    requires minLength >= 1
    ensures TextAt(wide, minLength, Letters(p, p + Span(minLength, wide), p, wide), p) == [Text(wide, minLength)]
  {
    var run := Letters(p, p + Span(minLength, wide), p, wide);
    assert Fit(|run| - p, wide) == minLength;
    LetterText(minLength, run, p, wide);
  }

  /** When the seam leaves less than the shortest string, that run's string gets no report: it is
      long enough, its owner does not see enough of it, and no other window owns it. */
  lemma {:induction false} SeamStringLost(w: Wanted, g: Grid, wide: bool)
    requires g.Valid() && w.minLength >= 1 && Looks(w, wide)
    requires w.minLength > Fit(g.overlap - g.overlap / 2 + 1, wide)
    ensures SeamRun(w, g, wide) != []
    ensures TextAt(wide, w.minLength, SeamRun(w, g, wide), Seam(g)) == [Text(wide, w.minLength)]
    ensures OwnerEnd(g, |SeamRun(w, g, wide)|, Seam(g)) - Seam(g) == g.overlap - g.overlap / 2 + 1
    ensures var run := SeamRun(w, g, wide);
            !Reported(ScanReports(StringsOf(w), run, g, Windows(g, |run|)), Seam(g), wide)
  {
    SeamString(w, g, wide);
    StringReported(w, SeamRun(w, g, wide), g, Seam(g), wide);
  }

  lemma {:induction false} SeamString(w: Wanted, g: Grid, wide: bool)
    requires g.Valid() && w.minLength >= 1 && w.minLength > Fit(g.overlap - g.overlap / 2 + 1, wide)
    ensures SeamRun(w, g, wide) != []
    ensures TextAt(wide, w.minLength, SeamRun(w, g, wide), Seam(g)) == [Text(wide, w.minLength)]
    ensures OwnerEnd(g, |SeamRun(w, g, wide)|, Seam(g)) - Seam(g) == g.overlap - g.overlap / 2 + 1
  {
    SeamLength(w, g, wide);
    SeamText(w.minLength, Seam(g), wide);
    SeamOwner(w.minLength, g, wide);
  }

  lemma {:induction false} SeamLength(w: Wanted, g: Grid, wide: bool)
    requires g.Valid() && w.minLength >= 1
    ensures Seam(g) >= 0 && |SeamRun(w, g, wide)| == Seam(g) + Span(w.minLength, wide) > 0
    ensures SeamRun(w, g, wide) == Letters(Seam(g), Seam(g) + Span(w.minLength, wide), Seam(g), wide)
  {
  }

  lemma {:induction false} SeamOwner(minLength: int, g: Grid, wide: bool)
    requires g.Valid() && minLength > Fit(g.overlap - g.overlap / 2 + 1, wide)
    ensures OwnerEnd(g, Seam(g) + Span(minLength, wide), Seam(g)) - Seam(g) == g.overlap - g.overlap / 2 + 1
  {
    var left := g.overlap - g.overlap / 2 + 1;
    assert Span(minLength, wide) > left;
    assert g.bytes == Seam(g) + left;
  }

  /** Every string of every run is reported. */
  ghost predicate AllReported(w: Wanted, g: Grid)
    requires g.Valid()
  {
    forall run, p, wide :: Looks(w, wide) && TextAt(wide, w.minLength, run, p) != [] ==>
      Reported(ScanReports(StringsOf(w), run, g, Windows(g, |run|)), p, wide)
  }

  /** Every string of every run is reported if and only if the shortest string fits in what an
      owner sees at a seam. */
  lemma {:induction false} AllReportedExactly(w: Wanted, g: Grid)
    requires g.Valid() && w.minLength >= 1
    ensures AllReported(w, g) <==> SeamFits(w, g)
  {
    if SeamFits(w, g) {
      forall run, p, wide | Looks(w, wide) && TextAt(wide, w.minLength, run, p) != []
        ensures Reported(ScanReports(StringsOf(w), run, g, Windows(g, |run|)), p, wide)
      {
        SeamSees(w, run, g, p, wide);
        StringReported(w, run, g, p, wide);
      }
    } else {
      var wide :| Looks(w, wide) && w.minLength > Fit(g.overlap - g.overlap / 2 + 1, wide);
      SeamStringLost(w, g, wide);
    }
  }

  lemma {:induction false} SeamSees(w: Wanted, run: seq<byte>, g: Grid, p: int, wide: bool)
    requires g.Valid() && SeamFits(w, g) && Looks(w, wide) && TextAt(wide, w.minLength, run, p) != []
    requires w.minLength >= 1
    ensures Fit(OwnerEnd(g, |run|, p) - p, wide) >= w.minLength
  {
    ExactlyOneOwner(g, |run|, p);
    CharsWithin(run, p, wide);
  }

  lemma {:induction false} CharsWithin(run: seq<byte>, p: int, wide: bool)
    requires 0 <= p <= |run|
    ensures p + Chars(run, p, wide) * Width(wide) <= |run|
  {
  }

  /** A small case: a window of six bytes with an overlap of four, five characters asked for.
      The string of seven that starts at byte three is found whole, and never by windows. */
  lemma {:induction false} SevenLettersLost()
    ensures var w, g, run := Wanted(true, false, 5), Grid(6, 4), Letters(3, 10, 3, false);
            && g.Valid() && Guarded(w, g)
            && TextAt(false, 5, run, 3) == [Text(false, 7)]
            && !Reported(ScanReports(StringsOf(w), run, g, Windows(g, |run|)), 3, false)
  {
    var w, g, run := Wanted(true, false, 5), Grid(6, 4), Letters(3, 10, 3, false);
    LetterText(5, run, 3, false);
    StringReported(w, run, g, 3, false);
  }

  // ---- strings that are clipped -----------------------------------------------------------------

  /** The `clipped_strings` count: a match of a window that is not the last one is counted when
      it reaches the end of the window's bytes. */
  predicate CountedAsClipped(run: seq<byte>, e: int, p: int, found: Text) {
    e < |run| && p + found.chars * Width(found.wide) >= e
  }

  /** The string at `p` is reported by an owner whose bytes end at `e`, and counted as clipped. */
  predicate StringCounted(wide: bool, minLength: int, run: seq<byte>, e: int, p: int) {
    var found := CutText(wide, minLength, run, e, p);
    found != [] && CountedAsClipped(run, e, p, found[0])
  }

  /** A string that outruns its owner's end is counted as clipped if and only if enough of it is
      left to be reported and the end does not fall inside one of its characters. */
  lemma {:induction false} ClippedExactly(wide: bool, minLength: int, run: seq<byte>, e: int, p: int)
    requires 0 <= p < e <= |run| && StartsAt(run, p, wide) && p + Chars(run, p, wide) * Width(wide) > e
    ensures StringCounted(wide, minLength, run, e, p)
       <==> Fit(e - p, wide) >= minLength && !(wide && (e - p) % 2 == 1)
  {
    CharsWithin(run, p, wide);
  }

  /** A string that does not outrun its owner's end is counted only if it ends precisely there. */
  lemma {:induction false} CountedIsAtEnd(wide: bool, minLength: int, run: seq<byte>, e: int, p: int)
    requires 0 <= p < e <= |run| && StartsAt(run, p, wide) && p + Chars(run, p, wide) * Width(wide) <= e
    ensures StringCounted(wide, minLength, run, e, p)
       <==> Chars(run, p, wide) >= minLength && p + Chars(run, p, wide) * Width(wide) == e < |run|
  {
  }

  // ---- tails that are reported again -------------------------------------------------------------

  lemma {:induction false} CutStringsStart(w: Wanted, ends: int -> int, run: seq<byte>, p: int, wide: bool)
    requires Reported(WholeReports(CutStringsOf(w, ends), run), p, wide)
    ensures StartsAt(run, p, wide)
  {
    ReportedBelow(CutStringsOf(w, ends), run, |run|, p, wide);
    CutHasWide(w, ends, run, p, wide);
  }

  /** Where the third window's share starts. */
  function TailAt(g: Grid): int { 2 * g.Step() + g.Guard() }

  /** One string, from a character's width below that position at the latest, up to the end of the
      third window. */
  function TailRun(g: Grid, wide: bool): seq<byte>
    requires g.Valid()
  {
    Letters(0, 2 * g.Step() + g.bytes, TailAt(g), wide)
  }

  lemma {:induction false} ThirdWindow(g: Grid, length: int)
    requires g.Valid() && length == 2 * g.Step() + g.bytes
    ensures 2 * g.Step() in Windows(g, length) && Want(g, length, 2 * g.Step()) == g.bytes
  {
    var ws := Windows(g, length);
    RemainingStep(g, length, 0, ws);
    RemainingStep(g, length, g.Step(), ws[1..]);
    RemainingStep(g, length, 2 * g.Step(), ws[1..][1..]);
    assert ws[1..][1..][0] in ws[1..] && ws[1..][1..][0] in ws;
  }

  /** A full window reports what it finds right after its guard. */
  lemma {:induction false} AfterGuard(at: Detector<Text>, run: seq<byte>, g: Grid, w: int, r: Report<Text>)
    requires g.Valid() && w in Windows(g, |run|) && Want(g, |run|, w) == g.bytes && r.offset == w + g.Guard()
    requires r.found in at(Slice(run, w, w + g.bytes), g.Guard())
    ensures r in ReportsAt(at, run, g, w)
  {
    assert Owns(g, g.Guard(), w, Last(g, |run|, w));
    WindowHasAt(at, run, g, w, w + g.bytes, g.Guard(), r);
  }

  lemma {:induction false} FullWindowReports(at: Detector<Text>, run: seq<byte>, g: Grid, w: int, r: Report<Text>)
    requires g.Valid() && w in Windows(g, |run|) && Want(g, |run|, w) == g.bytes && r.offset == w + g.Guard()
    requires r.found in at(Slice(run, w, w + g.bytes), g.Guard())
    ensures Reported(ScanReports(at, run, g, Windows(g, |run|)), r.offset, r.found.wide)
  {
    AfterGuard(at, run, g, w, r);
    WindowIsReported(at, run, g, Windows(g, |run|), w, r);
  }

  lemma {:induction false} WindowIsReported(at: Detector<Text>, run: seq<byte>, g: Grid, ws: seq<int>, w: int,
                                            r: Report<Text>)
    requires w in ws && r in ReportsAt(at, run, g, w)
    ensures Reported(ScanReports(at, run, g, ws), r.offset, r.found.wide)
  {
    ScanHas(at, run, g, ws, r);
    ReportedAt(ScanReports(at, run, g, ws), r);
  }

  lemma {:induction false} ReportedAt(reports: seq<Report<Text>>, r: Report<Text>)
    requires r in reports
    ensures Reported(reports, r.offset, r.found.wide)
  {
    var i :| 0 <= i < |reports| && reports[i] == r;
  }

  lemma {:induction false} TailReported(w: Wanted, g: Grid, wide: bool, run: seq<byte>, v: int, found: Text)
    requires g.Valid() && v == 2 * g.Step() && |run| == v + g.bytes && found.wide == wide
    requires found in StringsOf(w)(Slice(run, v, v + g.bytes), g.Guard())
    ensures Reported(ScanReports(StringsOf(w), run, g, Windows(g, |run|)), TailAt(g), wide)
  {
    ThirdWindow(g, |run|);
    FullWindowReports(StringsOf(w), run, g, v, Report(v + g.Guard(), found));
  }

  lemma {:induction false} ThirdFinds(w: Wanted, g: Grid, wide: bool)
    requires g.Valid() && w.minLength >= 1 && Looks(w, wide)
    requires g.Guard() < Width(wide) && Fit(g.bytes - g.Guard(), wide) >= w.minLength
    ensures |TailRun(g, wide)| == 2 * g.Step() + g.bytes
    ensures Text(wide, Fit(g.bytes - g.Guard(), wide))
         in StringsOf(w)(Slice(TailRun(g, wide), 2 * g.Step(), 2 * g.Step() + g.bytes), g.Guard())
  {
    var data := Slice(TailRun(g, wide), 2 * g.Step(), 2 * g.Step() + g.bytes);
    ThirdText(g, wide, w.minLength);
    FoundAt(w, data, g.Guard(), wide, Fit(g.bytes - g.Guard(), wide));
  }

  lemma {:induction false} ThirdText(g: Grid, wide: bool, minLength: int)
    requires g.Valid() && g.Guard() < Width(wide) && Fit(g.bytes - g.Guard(), wide) >= minLength >= 1
    ensures var data := Slice(TailRun(g, wide), 2 * g.Step(), 2 * g.Step() + g.bytes);
            && |data| == g.bytes
            && TextAt(wide, minLength, data, g.Guard()) == [Text(wide, Fit(g.bytes - g.Guard(), wide))]
  {
    ThirdData(g, wide);
    LetterText(minLength, Slice(TailRun(g, wide), 2 * g.Step(), 2 * g.Step() + g.bytes), g.Guard(), wide);
  }

  lemma {:induction false} ThirdData(g: Grid, wide: bool)
    requires g.Valid()
    ensures var data := Slice(TailRun(g, wide), 2 * g.Step(), 2 * g.Step() + g.bytes);
            |data| == g.bytes && LettersFrom(data, g.Guard(), wide)
  {
    var run, v, q := TailRun(g, wide), 2 * g.Step(), g.Guard();
    var data := Slice(run, v, v + g.bytes);
    forall i | q <= i < |data| ensures data[i] == Letter(i, q, wide) {
      assert data[i] == run[v + i] && (v + i) - TailAt(g) == i - q;
    }
  }

  lemma {:induction false} FoundAt(w: Wanted, data: seq<byte>, q: int, wide: bool, n: int)
    requires Looks(w, wide) && TextAt(wide, w.minLength, data, q) == [Text(wide, n)]
    ensures Text(wide, n) in StringsOf(w)(data, q)
  {
    assert TextAt(wide, w.minLength, data, q)[0] == Text(wide, n);
  }

  /** Without the guard's protection a long string's tail is reported again, at a position where
      no string of the run starts. */
  lemma {:induction false} TailReportedAgain(w: Wanted, g: Grid, wide: bool)
    requires g.Valid() && w.minLength >= 1 && Looks(w, wide)
    requires g.Guard() < Width(wide) && Fit(g.bytes - g.Guard(), wide) >= w.minLength
    ensures var run := TailRun(g, wide);
            && !StartsAt(run, TailAt(g), wide)
            && Reported(ScanReports(StringsOf(w), run, g, Windows(g, |run|)), TailAt(g), wide)
  {
    ThirdFinds(w, g, wide);
    TailReported(w, g, wide, TailRun(g, wide), 2 * g.Step(), Text(wide, Fit(g.bytes - g.Guard(), wide)));
    TailContinues(g, wide);
  }

  lemma {:induction false} TailContinues(g: Grid, wide: bool)
    requires g.Valid()
    ensures !StartsAt(TailRun(g, wide), TailAt(g), wide)
  {
    var run, p := TailRun(g, wide), TailAt(g);
    assert Letter(p - Width(wide), p, wide) == 65 && (wide ==> Letter(p - 1, p, wide) == 0);
    assert CharAt(run, p - Width(wide), wide);
  }

  /** On every run, the scan reports the strings' own starts, cut, and nothing else. */
  ghost predicate NoTails(w: Wanted, g: Grid)
    requires g.Valid()
  {
    forall run :: ScanReports(StringsOf(w), run, g, Windows(g, |run|))
               == WholeReports(CutStringsOf(w, OwnerEnds(g, |run|)), run)
  }

  /** Whatever encodings and minimum length are asked for, no tail is ever reported as another
      string if and only if the request is guarded. */
  lemma {:induction false} NoTailsExactly(w: Wanted, g: Grid)
    requires g.Valid() && w.minLength >= 1
    ensures NoTails(w, g) <==> Guarded(w, g)
  {
    if Guarded(w, g) {
      forall run { StringsAreCut(w, run, g); }
    } else {
      var wide :| Looks(w, wide) && g.Guard() < Width(wide) && Fit(g.bytes - g.Guard(), wide) >= w.minLength;
      var run := TailRun(g, wide);
      TailReportedAgain(w, g, wide);
      if Reported(WholeReports(CutStringsOf(w, OwnerEnds(g, |run|)), run), TailAt(g), wide) {
        CutStringsStart(w, OwnerEnds(g, |run|), run, TailAt(g), wide);
      }
    }
  }

  /** For a minimum length that a window can hold after the guard, being guarded is a matter of
      the overlap alone: two bytes for ASCII, four once UTF-16 is looked for. */
  lemma {:induction false} GuardedByOverlap(w: Wanted, g: Grid)
    requires g.Valid() && (w.ascii || w.utf16)
    requires forall wide :: Looks(w, wide) ==> w.minLength <= Fit(g.bytes - g.Guard(), wide)
    ensures Guarded(w, g) <==> Reach(w) <= g.overlap / 2
    ensures Guarded(w, g) <==> g.overlap >= if w.utf16 then 4 else 2
  {
    assert Looks(w, true) == w.utf16 && Looks(w, false) == w.ascii;
  }

  /** The overlap alone does not decide it: windows too short to hold a string report no tails,
      nor anything else. */
  lemma {:induction false} ShortWindowsHaveNoTails()
    ensures var w, g := Wanted(true, false, 2), Grid(1, 0);
            g.Valid() && NoTails(w, g) && Reach(w) > g.overlap / 2
  {
    NoTailsExactly(Wanted(true, false, 2), Grid(1, 0));
  }
}
