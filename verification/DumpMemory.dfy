/** What a window shows of the dumps' memories: each index the byte a dump captured at the address
    its segment gives the dump, and a difference where two memories differ (app/tools_consensus.py). */
module DumpMemory {
  import opened Sequences
  import opened LabelledRuns
  import opened ScanPlan
  import opened VaTranslation
  import opened WindowProjection
  import opened CrossDump
  import opened AlignedWindow

  // ---- a dump's contents --------------------------------------------------------------------------------

  /** The byte captured at each place, if one was: by address or by offset in a view. */
  type Contents = int -> Option<byte>

  /** At byte `j`, a read of `n` bytes at `offset` claims and returns what was captured. */
  ghost predicate ReadShows(dump: Dump, view: Contents, offset: int, n: int, j: int) {
    var r := dump.read(offset, n);
    && (r.data != [] && Claimed(r.captured, j) <==> view(offset + j).Some?)
    && (view(offset + j).Some? ==> 0 <= j < |r.data| && r.data[j] == view(offset + j).value)
  }

  ghost predicate ReadsShow(dump: Dump, view: Contents) {
    forall offset, n, j {:trigger ReadShows(dump, view, offset, n, j)} ::
      0 <= offset && 0 <= j < n ==> ReadShows(dump, view, offset, n, j)
  }

  ghost predicate RunShows(r: Captured, memory: Contents, view: Contents, d: int) {
    view(r.vas + d) == memory(r.va + d)
  }

  /** The view shows the memory: from the span's start on, or the captured runs at their offsets. */
  ghost predicate ViewShows(dump: Dump, memory: Contents, view: Contents) {
    match dump.view
    case RawView => true
    case VaView => dump.span.Some? ==> forall o :: o >= 0 ==> view(o) == memory(dump.span.value + o)
    case VasView =>
      forall k, d {:trigger RunShows(dump.runs[k], memory, view, d)} ::
        0 <= k < |dump.runs| && 0 <= d < dump.runs[k].length ==> RunShows(dump.runs[k], memory, view, d)
  }

  /** The dump's reads show this memory through this view; no captured run has a negative offset. */
  ghost predicate Shown(dump: Dump, memory: Contents, view: Contents) {
    && ReadsAtMost(dump) && ReadsShow(dump, view) && ViewShows(dump, memory, view)
    && forall k :: 0 <= k < |dump.runs| ==> dump.runs[k].vas >= 0
  }

  // ---- a segment's place in a dump ------------------------------------------------------------------------

  /** Run `k` is the first one that holds the address. */
  ghost predicate FirstAt(runs: seq<Captured>, k: nat, va: int) {
    && k < |runs| && runs[k].va <= va < runs[k].va + runs[k].length
    && forall j :: 0 <= j < k ==> !(runs[j].va <= va < runs[j].va + runs[j].length)
  }

  /** The segment names an address of this dump that its view can show. */
  ghost predicate Reaches(dump: Dump, s: AlignedSegment) {
    && dump.index < |s.vas| && s.vas[dump.index] >= 0
    && match dump.view
       case RawView => false
       case VaView => dump.span.Some? && dump.span.value <= s.vas[dump.index]
       case VasView => exists k: nat :: FirstAt(dump.runs, k, s.vas[dump.index])
  }

  /** Run `m` holds the address, as far from its offset as run `k` holds its own. */
  ghost predicate InStep(runs: seq<Captured>, k: nat, m: nat, va: int) {
    && k < |runs| && m < |runs| && runs[m].va <= va < runs[m].va + runs[m].length
    && runs[m].vas - runs[m].va == runs[k].vas - runs[k].va
  }

  ghost predicate Follows(runs: seq<Captured>, k: nat, va: int) { exists m: nat :: InStep(runs, k, m, va) }

  /** In the captured stream, the address of index `i` is held as far from the segment's first one as in
      memory: elsewhere the stream goes on with another stretch of memory. */
  ghost predicate Unbroken(dump: Dump, s: AlignedSegment, i: int) {
    dump.view.VasView? && dump.index < |s.vas| ==>
      forall k: nat {:trigger FirstAt(dump.runs, k, s.vas[dump.index])} :: FirstAt(dump.runs, k, s.vas[dump.index]) ==>
        Follows(dump.runs, k, s.vas[dump.index] + (i - s.windowOffset))
  }

  /** What the dump captured at index `i` of the segment: at the dump's own address for it or, in a flat
      coordinate, at the offset that every dump shares. */
  ghost function CapturedAt(dump: Dump, memory: Contents, view: Contents, s: AlignedSegment, i: int): Option<byte> {
    if s.layoutRow < 0 then view(s.slabOffset + (i - s.windowOffset))
    else if Reaches(dump, s) then memory(s.vas[dump.index] + (i - s.windowOffset))
    else None
  }

  /** Index `i` of the segment can be told from the memory. */
  ghost predicate Tellable(dump: Dump, s: AlignedSegment, i: int) {
    s.Has(i) && if s.layoutRow < 0 then s.slabOffset >= 0 else Unbroken(dump, s, i)
  }

  // ---- what the window shows --------------------------------------------------------------------------------

  lemma {:induction false} ToVasFirst(table: seq<Captured>, n: nat, va: int)
    requires n <= |table|
    ensures match ToVas(table, n, va)
            case Some(o) => exists k: nat :: k < n && FirstAt(table, k, va) && o == table[k].vas + (va - table[k].va)
            case None => forall j :: 0 <= j < n ==> !(table[j].va <= va < table[j].va + table[j].length)
  {
    if n > 0 {
      ToVasFirst(table, n - 1, va);
      if ToVas(table, n - 1, va).None? && AtVa(table[n - 1], va) { assert FirstAt(table, n - 1, va); }
    }
  }

  /** The offset of a segment shows what its first address holds, and index `i` what follows it. */
  lemma {:induction false} OffsetShows(dump: Dump, memory: Contents, view: Contents, s: AlignedSegment, i: int)
    requires Shown(dump, memory, view) && Tellable(dump, s, i)
    ensures match SegmentOffset(dump, s)
            case Some(o) => o >= 0 && view(o + (i - s.windowOffset)) == CapturedAt(dump, memory, view, s, i)
                            && (s.layoutRow >= 0 ==> Reaches(dump, s))
            case None => CapturedAt(dump, memory, view, s, i).None? && s.layoutRow >= 0 && !Reaches(dump, s)
  {
    if s.layoutRow >= 0 && dump.index < |s.vas| && s.vas[dump.index] >= 0 && dump.view.VasView? {
      StreamShows(dump, memory, view, s, i);
    }
  }

  lemma {:induction false} StreamShows(dump: Dump, memory: Contents, view: Contents, s: AlignedSegment, i: int)
    requires Shown(dump, memory, view) && Tellable(dump, s, i) && s.layoutRow >= 0
    requires dump.index < |s.vas| && s.vas[dump.index] >= 0 && dump.view.VasView?
    ensures match ToVas(dump.runs, |dump.runs|, s.vas[dump.index])
            case Some(o) => o >= 0 && Reaches(dump, s)
                            && view(o + (i - s.windowOffset)) == memory(s.vas[dump.index] + (i - s.windowOffset))
            case None => !Reaches(dump, s)
  {
    var va, j := s.vas[dump.index], i - s.windowOffset;
    ToVasFirst(dump.runs, |dump.runs|, va);
    if ToVas(dump.runs, |dump.runs|, va).Some? {
      var o := ToVas(dump.runs, |dump.runs|, va).value;
      var k: nat :| k < |dump.runs| && FirstAt(dump.runs, k, va) && o == dump.runs[k].vas + (va - dump.runs[k].va);
      assert Follows(dump.runs, k, va + j);
      var m: nat :| InStep(dump.runs, k, m, va + j);
      assert RunShows(dump.runs[m], memory, view, va + j - dump.runs[m].va);
    }
  }

  /** Whatever run `m` the stream has come to at index `i`, the index shows an address of that run: its
      own one if and only if the stream is unbroken up to there. */
  lemma {:induction false} ShowsOwnAddressExactly(dump: Dump, memory: Contents, view: Contents, s: AlignedSegment,
                                                  i: int, k: nat, m: nat)
    requires Shown(dump, memory, view) && dump.view.VasView? && VasDisjoint(dump.runs)
    requires dump.index < |s.vas| && FirstAt(dump.runs, k, s.vas[dump.index]) && m < |dump.runs|
    requires var o := dump.runs[k].vas + (s.vas[dump.index] - dump.runs[k].va) + (i - s.windowOffset);
             AtVas(dump.runs[m], o)
    ensures var o := dump.runs[k].vas + (s.vas[dump.index] - dump.runs[k].va) + (i - s.windowOffset);
            var shown := dump.runs[m].va + (o - dump.runs[m].vas);
            && view(o) == memory(shown)
            && (shown == s.vas[dump.index] + (i - s.windowOffset) <==> Unbroken(dump, s, i))
  {
    var va := s.vas[dump.index] + (i - s.windowOffset);
    var o := dump.runs[k].vas + (s.vas[dump.index] - dump.runs[k].va) + (i - s.windowOffset);
    assert RunShows(dump.runs[m], memory, view, o - dump.runs[m].vas);
    forall l: nat | FirstAt(dump.runs, l, s.vas[dump.index]) ensures l == k {}
    if dump.runs[m].va + (o - dump.runs[m].vas) == va {
      assert InStep(dump.runs, k, m, va) && Follows(dump.runs, k, va);
    }
    if Unbroken(dump, s, i) {
      assert Follows(dump.runs, k, va);
      var n: nat :| InStep(dump.runs, k, n, va);
      assert AtVas(dump.runs[n], o);
    }
  }

  /** An index of a segment holds, and claims, precisely what the dump captured at its address. */
  lemma {:induction false} WindowShows(dump: Dump, memory: Contents, view: Contents, p: Projection, k: nat, i: int)
    requires Partition(p) && Shown(dump, memory, view) && k < |p.segments| && Tellable(dump, p.segments[k], i)
    ensures var captured := CapturedAt(dump, memory, view, p.segments[k], i);
            && (HeldAt(dump, p.segments, |p.segments|, i) <==> captured.Some?)
            && (captured.Some? ==> ByteAt(dump, p.segments, |p.segments|, i) == captured.value)
            && (p.segments[k].layoutRow >= 0 && !Reaches(dump, p.segments[k])
                ==> ByteAt(dump, p.segments, |p.segments|, i) == 0)
  {
    var s := p.segments[k];
    SegmentHolds(dump, p, k, i);
    OffsetShows(dump, memory, view, s, i);
    if SegmentOffset(dump, s).Some? {
      assert ReadShows(dump, view, SegmentOffset(dump, s).value, s.length, i - s.windowOffset);
    }
  }

  // ---- where dumps differ -------------------------------------------------------------------------------------

  /** The unlocked dumps `d` and `e` captured different bytes at their addresses for index `i`. */
  ghost predicate MemoriesDiffer(dumps: seq<Dump>, memories: seq<Contents>, views: seq<Contents>, s: AlignedSegment,
                                 i: int, d: nat, e: nat)
    requires |memories| == |dumps| == |views| && d < |dumps| && e < |dumps|
  {
    var x := CapturedAt(dumps[d], memories[d], views[d], s, i);
    var y := CapturedAt(dumps[e], memories[e], views[e], s, i);
    dumps[d].decrypted && dumps[e].decrypted && x.Some? && y.Some? && x != y
  }

  ghost predicate AllShown(dumps: seq<Dump>, memories: seq<Contents>, views: seq<Contents>, s: AlignedSegment, i: int) {
    && |memories| == |dumps| == |views|
    && forall d :: 0 <= d < |dumps| ==> Shown(dumps[d], memories[d], views[d]) && Tellable(dumps[d], s, i)
  }

  /** Two values are counted at an index if and only if two unlocked dumps captured different bytes at
      their own addresses for it. */
  lemma {:induction false} DifferIsInMemory(dumps: seq<Dump>, memories: seq<Contents>, views: seq<Contents>,
                                            p: Projection, k: nat, i: int)
    requires Partition(p) && k < |p.segments| && AllShown(dumps, memories, views, p.segments[k], i)
    ensures |HeldValues(dumps, p, |dumps|, i)| >= 2 <==>
            exists d: nat, e: nat :: d < e < |dumps| && MemoriesDiffer(dumps, memories, views, p.segments[k], i, d, e)
  {
    DifferMeansDisagreement(dumps, p, i);
    forall d: nat | d < |dumps| ensures ShownHolds(dumps[d], memories[d], views[d], p, p.segments[k], i) {
      WindowShows(dumps[d], memories[d], views[d], p, k, i);
    }
    if |HeldValues(dumps, p, |dumps|, i)| >= 2 {
      var d: nat, e: nat :| d < e < |dumps| && HoldsByte(dumps[d], p, i) && HoldsByte(dumps[e], p, i)
        && ByteAt(dumps[d], p.segments, |p.segments|, i) != ByteAt(dumps[e], p.segments, |p.segments|, i);
      assert ShownHolds(dumps[d], memories[d], views[d], p, p.segments[k], i);
      assert ShownHolds(dumps[e], memories[e], views[e], p, p.segments[k], i);
      assert MemoriesDiffer(dumps, memories, views, p.segments[k], i, d, e);
    }
    if d: nat, e: nat :| d < e < |dumps| && MemoriesDiffer(dumps, memories, views, p.segments[k], i, d, e) {
      assert ShownHolds(dumps[d], memories[d], views[d], p, p.segments[k], i);
      assert ShownHolds(dumps[e], memories[e], views[e], p, p.segments[k], i);
      assert HoldsByte(dumps[d], p, i) && HoldsByte(dumps[e], p, i);
    }
  }

  ghost predicate ShownHolds(dump: Dump, memory: Contents, view: Contents, p: Projection, s: AlignedSegment, i: int) {
    var captured := CapturedAt(dump, memory, view, s, i);
    && (HeldAt(dump, p.segments, |p.segments|, i) <==> captured.Some?)
    && (captured.Some? ==> ByteAt(dump, p.segments, |p.segments|, i) == captured.value)
  }
}
