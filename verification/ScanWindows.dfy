/** The overlapping read windows of one captured run and the rule that gives every position one
    owning window (app/scan_plan.py), with the proof that scanning window by window is scanning
    the whole run. Window and overlap sizes stay symbolic. */
module ScanWindows {
  import opened Sequences

  datatype Grid = Grid(bytes: int, overlap: int) {
    predicate Valid() { 0 <= overlap < bytes }

    function Step(): int { bytes - overlap }

    /** Distance of the ownership seam from a window's start or, mirrored, from its end. */
    function Guard(): int { overlap / 2 }
  }

  /** Python's `range(lo, hi, step)`. */
  function Range(lo: int, hi: int, step: int): (r: seq<int>)
    requires step > 0
    decreases hi - lo
  {
    if lo >= hi then [] else [lo] + Range(lo + step, hi, step)
  }

  /** Start of every read window of a run, relative to the run. */
  function Windows(g: Grid, length: int): seq<int>
    requires g.Valid()
  {
    if length <= 0 then [] else Range(0, Max(length - g.overlap, 1), g.Step())
  }

  /** Bytes to read at a window. */
  function Want(g: Grid, length: int, window: int): int { Min(g.bytes, length - window) }

  /** Is this the run's last window? */
  predicate Last(g: Grid, length: int, window: int) { window + Want(g, length, window) >= length }

  /** Bytes of a window read of `read` bytes that count as scanned. */
  function OwnedBytes(g: Grid, read: int, last: bool): int {
    if last then read else Min(g.bytes - g.overlap, read)
  }

  /** Does the window at `window` own a match at `offset` within it? */
  predicate Owns(g: Grid, offset: int, window: int, last: bool) {
    (window == 0 || offset >= g.Guard()) && (last || offset < g.Step() + g.Guard())
  }

  // ---- the windows tile the run -------------------------------------------------------

  /** `ws` is what `Windows` still has to visit from window `w` on. */
  ghost predicate Remaining(g: Grid, length: int, w: int, ws: seq<int>) {
    && g.Valid() && 0 < length && (w == 0 || 0 < w < length - g.overlap)
    && ws == Range(w, Max(length - g.overlap, 1), g.Step())
  }

  lemma {:induction false} RemainingStep(g: Grid, length: int, w: int, ws: seq<int>)
    requires Remaining(g, length, w, ws)
    ensures ws != [] && ws[0] == w
    ensures Last(g, length, w) <==> |ws| == 1
    ensures !Last(g, length, w) ==> Remaining(g, length, w + g.Step(), ws[1..])
    ensures 0 < Want(g, length, w) && w + Want(g, length, w) <= length
    ensures !Last(g, length, w) ==> Want(g, length, w) == g.bytes
  {
    var hi := Max(length - g.overlap, 1);
    assert ws == [w] + Range(w + g.Step(), hi, g.Step());
    assert ws[1..] == Range(w + g.Step(), hi, g.Step());
  }

  ghost function Owned(g: Grid, length: int): int -> int {
    (w: int) => OwnedBytes(g, Want(g, length, w), Last(g, length, w))
  }

  lemma {:induction false} RemainingOwned(g: Grid, length: int, w: int, ws: seq<int>)
    requires Remaining(g, length, w, ws)
    ensures Sum(ws, Owned(g, length)) == length - w
    decreases |ws|
  {
    RemainingStep(g, length, w, ws);
    assert ws == [w] + ws[1..];
    SumCons(w, ws[1..], Owned(g, length));
    if !Last(g, length, w) {
      RemainingOwned(g, length, w + g.Step(), ws[1..]);
    }
  }

  lemma {:induction false} RemainingTiles(g: Grid, length: int, w: int, ws: seq<int>, i: nat)
    requires Remaining(g, length, w, ws) && i < |ws|
    ensures Last(g, length, ws[i]) <==> i == |ws| - 1
    ensures i > 0 ==> ws[i] == ws[i - 1] + g.Step()
    decreases |ws|
  {
    RemainingStep(g, length, w, ws);
    if i > 0 {
      RemainingStep(g, length, w + g.Step(), ws[1..]);
      RemainingTiles(g, length, w + g.Step(), ws[1..], i - 1);
    }
  }

  /** The windows tile a run exactly: only the final one reports `last`, it ends at the run's
      end, each starts one step after its predecessor, and the owned bytes add up to the run. */
  lemma {:induction false} WindowsTile(g: Grid, length: int)
    requires g.Valid() && 0 < length
    ensures var ws := Windows(g, length);
            && ws != [] && ws[0] == 0
            && (forall i :: 0 <= i < |ws| ==> (Last(g, length, ws[i]) <==> i == |ws| - 1))
            && (forall i :: 0 < i < |ws| ==> ws[i] == ws[i - 1] + g.Step())
            && ws[|ws| - 1] + Want(g, length, ws[|ws| - 1]) == length
            && Sum(ws, Owned(g, length)) == length
  {
    var ws := Windows(g, length);
    RemainingStep(g, length, 0, ws);
    RemainingOwned(g, length, 0, ws);
    forall i | 0 <= i < |ws|
      ensures (Last(g, length, ws[i]) <==> i == |ws| - 1) && (i > 0 ==> ws[i] == ws[i - 1] + g.Step())
    {
      RemainingTiles(g, length, 0, ws, i);
    }
    LaterWindows(g, length, 0, ws, ws[|ws| - 1]);
  }

  // ---- one owner per position ---------------------------------------------------------

  /** The window that owns position `p`, looked for from window `w` on. */
  ghost function OwnerFrom(g: Grid, length: int, w: int, p: int): int
    requires g.Valid()
    decreases length - w
  {
    if Last(g, length, w) || p < w + g.Step() + g.Guard() then w
    else OwnerFrom(g, length, w + g.Step(), p)
  }

  /** Where the bytes that the owner of `p` sees end. */
  ghost function OwnerEnd(g: Grid, length: int, p: int): int
    requires g.Valid()
  {
    var w := OwnerFrom(g, length, 0, p);
    w + Want(g, length, w)
  }

  /** First position the window at `w` owns. */
  ghost function SeamLo(g: Grid, w: int): int { if w == 0 then 0 else w + g.Guard() }

  /** First position after those the window at `w` owns. */
  ghost function SeamHi(g: Grid, length: int, w: int): int {
    if Last(g, length, w) then length else w + g.Step() + g.Guard()
  }

  /** Does the window at `w` report a match at run position `p`? */
  predicate Reports(g: Grid, length: int, w: int, p: int) {
    0 <= p - w < Want(g, length, w) && Owns(g, p - w, w, Last(g, length, w))
  }

  lemma {:induction false} ReportsBetweenSeams(g: Grid, length: int, w: int, p: int)
    requires g.Valid() && 0 <= w < length && (w == 0 || w < length - g.overlap)
    ensures Reports(g, length, w, p) <==> SeamLo(g, w) <= p < SeamHi(g, length, w)
  {
  }

  lemma {:induction false} LaterWindows(g: Grid, length: int, w: int, ws: seq<int>, v: int)
    requires Remaining(g, length, w, ws) && v in ws
    ensures v == w || (!Last(g, length, w) && v in ws[1..] && v >= w + g.Step())
    ensures w <= v < length && (v == 0 || v < length - g.overlap)
    decreases |ws|
  {
    RemainingStep(g, length, w, ws);
    if v != w {
      LaterWindows(g, length, w + g.Step(), ws[1..], v);
    }
  }

  /** The share of a window lies inside what it reads, and that inside the run. */
  lemma {:induction false} WindowShare(g: Grid, length: int, w: int)
    requires g.Valid() && w in Windows(g, length)
    ensures 0 <= w <= SeamLo(g, w) && SeamHi(g, length, w) <= w + Want(g, length, w) <= length
    ensures w == 0 || w + g.Guard() <= SeamLo(g, w)
    ensures Want(g, length, w) <= g.bytes
  {
    LaterWindows(g, length, 0, Windows(g, length), w);
  }

  lemma {:induction false} OwnerIsUnique(g: Grid, length: int, w: int, ws: seq<int>, p: int)
    requires Remaining(g, length, w, ws) && SeamLo(g, w) <= p < length
    ensures OwnerFrom(g, length, w, p) in ws
    ensures Reports(g, length, OwnerFrom(g, length, w, p), p)
    ensures forall v :: v in ws && Reports(g, length, v, p) ==> v == OwnerFrom(g, length, w, p)
    decreases |ws|
  {
    RemainingStep(g, length, w, ws);
    ReportsBetweenSeams(g, length, w, p);
    if Last(g, length, w) || p < w + g.Step() + g.Guard() {
      forall v | v in ws && Reports(g, length, v, p) ensures v == w {
        LaterWindows(g, length, w, ws, v);
      }
    } else {
      OwnerIsUnique(g, length, w + g.Step(), ws[1..], p);
    }
  }

  /** Every position of a run is reported by exactly one of its windows; that window sees at
      least `overlap - overlap / 2` bytes after the position (or all that is left of the run)
      and, unless it is the first, at least `overlap / 2` bytes before it. */
  lemma {:induction false} ExactlyOneOwner(g: Grid, length: int, p: int)
    requires g.Valid() && 0 <= p < length
    ensures var o := OwnerFrom(g, length, 0, p);
            && o in Windows(g, length) && Reports(g, length, o, p)
            && (forall v :: v in Windows(g, length) && Reports(g, length, v, p) ==> v == o)
            && (o == 0 || p - o >= g.overlap / 2)
            && p < OwnerEnd(g, length, p) <= length
            && (OwnerEnd(g, length, p) == length || OwnerEnd(g, length, p) - p > g.overlap - g.overlap / 2)
  {
    OwnerIsUnique(g, length, 0, Windows(g, length), p);
    LaterWindows(g, length, 0, Windows(g, length), OwnerFrom(g, length, 0, p));
  }
}
