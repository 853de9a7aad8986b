/** Reading the selected dumps in correspondence and counting where they disagree
    (app/tools_consensus.py). */
module AlignedWindow {
  import opened Sequences
  import opened LabelledRuns
  import opened ScanPlan
  import opened VaTranslation
  import opened WindowProjection
  import opened CrossDump

  // ---- one dump ---------------------------------------------------------------------------------------

  /** What a read returns: bytes, and the runs of them the dump captured, relative to the result. */
  datatype Read = Read(data: seq<byte>, captured: seq<ValidRun>)

  /** An opened dump: its place in the build order, the view it is read in, its run table and its
      reader. */
  datatype Dump = Dump(index: nat, decrypted: bool, view: View, span: Option<int>, runs: seq<Captured>,
                       read: (int, int) -> Read)

  /** A read returns at most the bytes it was asked for. */
  ghost predicate ReadsAtMost(dump: Dump) {
    forall offset, n: nat :: |dump.read(offset, n).data| <= n
  }

  /** Where a segment's first byte lives in the dump, if it has a place there. */
  function SegmentOffset(dump: Dump, s: AlignedSegment): Option<int> {
    if s.layoutRow < 0 then Some(s.slabOffset)
    else if dump.index >= |s.vas| || s.vas[dump.index] < 0 then None
    else
      var offset := Translation(dump.view, dump.span, dump.runs, Va(s.vas[dump.index]));
      if offset.Some? && offset.value >= 0 then offset else None
  }

  /** The read of a segment; nothing for one the dump has no place for. */
  function ReadOf(dump: Dump, s: AlignedSegment): Read {
    var offset := SegmentOffset(dump, s);
    if offset.None? then Read([], []) else dump.read(offset.value, s.length)
  }

  // ---- what a window holds ------------------------------------------------------------------------------

  /** The byte at index `i` after the first `n` segments have been read. */
  ghost function ByteAt(dump: Dump, segments: seq<AlignedSegment>, n: nat, i: int): byte
    requires n <= |segments|
  {
    if n == 0 then 0
    else
      var s := segments[n - 1];
      if 0 <= i - s.windowOffset < |ReadOf(dump, s).data| then ReadOf(dump, s).data[i - s.windowOffset]
      else ByteAt(dump, segments, n - 1, i)
  }

  /** The dump captured the byte at index `i` of segment `s`. */
  ghost predicate HeldIn(dump: Dump, s: AlignedSegment, i: int) {
    && s.Has(i)
    && ReadOf(dump, s).data != []
    && Claimed(ReadOf(dump, s).captured, i - s.windowOffset)
  }

  ghost predicate HeldAt(dump: Dump, segments: seq<AlignedSegment>, n: nat, i: int)
    requires n <= |segments|
  {
    exists k :: 0 <= k < n && HeldIn(dump, segments[k], i)
  }

  // ---- reading one dump --------------------------------------------------------------------------------

  /** Replaces the bytes from `at` on, as slice assignment does: past the end it extends. */
  function Splice(buffer: seq<byte>, at: nat, data: seq<byte>): seq<byte> {
    buffer[..Min(at, |buffer|)] + data + buffer[Min(at + |data|, |buffer|)..]
  }

  /** A response block: bytes in window coordinates, presence claims, and where each segment was
      read; no bytes for a locked dump or when none were asked for. */
  datatype Block = Block(bytes: Option<seq<byte>>, valid: seq<ValidRun>, offsets: map<int, int>)

  ghost predicate Filled(buffer: seq<byte>, dump: Dump, p: Projection, n: nat)
    requires n <= |p.segments|
  {
    && |buffer| == p.length
    && forall i :: 0 <= i < p.length ==> buffer[i] == ByteAt(dump, p.segments, n, i)
  }

  ghost predicate Presence(valid: seq<ValidRun>, dump: Dump, p: Projection, n: nat)
    requires n <= |p.segments|
  {
    forall i :: Claimed(valid, i) <==> HeldAt(dump, p.segments, n, i)
  }

  ghost predicate OffsetsOf(offsets: map<int, int>, dump: Dump, p: Projection, n: nat)
    requires n <= |p.segments|
  {
    && (forall o :: o in offsets <==> exists k :: 0 <= k < n && p.segments[k].windowOffset == o
                                                  && SegmentOffset(dump, p.segments[k]).Some?)
    && forall o :: o in offsets ==> exists k :: 0 <= k < n && p.segments[k].windowOffset == o
                                                && SegmentOffset(dump, p.segments[k]) == Some(offsets[o])
  }

  method ReadDumpWindow(dump: Dump, p: Projection, includeBytes: bool) returns (block: Block)
    requires Partition(p) && ReadsAtMost(dump)
    ensures block.bytes.Some? <==> dump.decrypted && includeBytes
    ensures block.bytes.None? ==> block.valid == []
    ensures block.bytes.Some? ==> Filled(block.bytes.value, dump, p, |p.segments|)
    ensures block.bytes.Some? ==> Presence(block.valid, dump, p, |p.segments|)
    ensures dump.decrypted ==> OffsetsOf(block.offsets, dump, p, |p.segments|)
  {
    if !dump.decrypted { return Block(None, [], map[]); }
    var buffer: seq<byte> := seq(p.length, _ => 0);
    var valid: seq<ValidRun> := [];
    var offsets: map<int, int> := map[];
    for k := 0 to |p.segments|
      invariant if includeBytes then Filled(buffer, dump, p, k) && Presence(valid, dump, p, k) else valid == []
      invariant OffsetsOf(offsets, dump, p, k)
    {
      var s := p.segments[k];
      var at := SegmentOffset(dump, s);
      if at.None? {
        if includeBytes { NothingRead(buffer, valid, dump, p, k); }
        continue;
      }
      offsets := offsets[s.windowOffset := at.value];
      if !includeBytes { continue; }
      var r := dump.read(at.value, s.length);
      if r.data == [] {
        NothingRead(buffer, valid, dump, p, k);
        continue;
      }
      FillNext(buffer, dump, p, k);
      buffer := Splice(buffer, s.windowOffset, r.data);
      var claimed := Shifted(r.captured, s);
      ClaimNext(valid, claimed, dump, p, k);
      valid := valid + claimed;
    }
    if !includeBytes { return Block(None, [], offsets); }
    return Block(Some(buffer), valid, offsets);
  }

  lemma {:induction false} HeldNext(dump: Dump, segments: seq<AlignedSegment>, n: nat, i: int)
    requires n < |segments|
    ensures HeldAt(dump, segments, n + 1, i) <==> HeldAt(dump, segments, n, i) || HeldIn(dump, segments[n], i)
  {
  }

  lemma {:induction false} NothingRead(buffer: seq<byte>, valid: seq<ValidRun>, dump: Dump, p: Projection, k: nat)
    requires k < |p.segments| && Filled(buffer, dump, p, k) && Presence(valid, dump, p, k)
    requires ReadOf(dump, p.segments[k]).data == []
    ensures Filled(buffer, dump, p, k + 1) && Presence(valid, dump, p, k + 1)
  {
    forall i ensures Claimed(valid, i) <==> HeldAt(dump, p.segments, k + 1, i) {
      HeldNext(dump, p.segments, k, i);
    }
  }

  lemma {:induction false} FillNext(buffer: seq<byte>, dump: Dump, p: Projection, k: nat)
    requires Partition(p) && ReadsAtMost(dump) && k < |p.segments| && Filled(buffer, dump, p, k)
    requires SegmentOffset(dump, p.segments[k]).Some?
    ensures p.segments[k].windowOffset >= 0
    ensures Filled(Splice(buffer, p.segments[k].windowOffset, ReadOf(dump, p.segments[k]).data), dump, p, k + 1)
  {
    SegmentInside(p, k);
    var s := p.segments[k];
    var data := ReadOf(dump, s).data;
    assert |data| <= s.length;
    var next := Splice(buffer, s.windowOffset, data);
    assert |next| == |buffer|;
    forall i | 0 <= i < p.length ensures next[i] == ByteAt(dump, p.segments, k + 1, i) {
      assert buffer[i] == ByteAt(dump, p.segments, k, i);
      assert next[i] == if 0 <= i - s.windowOffset < |data| then data[i - s.windowOffset] else buffer[i];
    }
  }

  lemma {:induction false} ClaimNext(valid: seq<ValidRun>, claimed: seq<ValidRun>, dump: Dump, p: Projection, k: nat)
    requires k < |p.segments| && Presence(valid, dump, p, k) && ReadOf(dump, p.segments[k]).data != []
    requires var s := p.segments[k];
             forall i :: Claimed(claimed, i) <==> s.Has(i) && Claimed(ReadOf(dump, s).captured, i - s.windowOffset)
    ensures Presence(valid + claimed, dump, p, k + 1)
  {
    forall i ensures Claimed(valid + claimed, i) <==> HeldAt(dump, p.segments, k + 1, i) {
      HeldNext(dump, p.segments, k, i);
      ClaimedEither(valid, claimed, i);
    }
  }

  lemma {:induction false} ClaimedEither(x: seq<ValidRun>, y: seq<ValidRun>, i: int)
    ensures Claimed(x + y, i) <==> Claimed(x, i) || Claimed(y, i)
  {
    if k :| 0 <= k < |x| && Claims(x[k], i) { assert (x + y)[k] == x[k]; }
    if k :| 0 <= k < |y| && Claims(y[k], i) { assert (x + y)[|x| + k] == y[k]; }
    if k :| 0 <= k < |x + y| && Claims((x + y)[k], i) {
      assert k >= |x| ==> Claims(y[k - |x|], i);
    }
  }

  /** A segment's presence runs, clamped to the segment and moved to window coordinates. */
  method Shifted(captured: seq<ValidRun>, s: AlignedSegment) returns (valid: seq<ValidRun>)
    requires s.windowOffset >= 0
    ensures forall i :: Claimed(valid, i) <==> s.Has(i) && Claimed(captured, i - s.windowOffset)
  {
    valid := [];
    for j := 0 to |captured|
      invariant forall i :: Claimed(valid, i) <==> s.Has(i) && Claimed(captured[..j], i - s.windowOffset)
    {
      var begin := Max(0, captured[j].0);
      var stop := Min(s.length, begin + captured[j].1);
      var here := if stop > begin then [(s.windowOffset + begin, stop - begin)] else [];
      forall i ensures Claimed(valid + here, i) <==> s.Has(i) && Claimed(captured[..j + 1], i - s.windowOffset) {
        ClaimedNext(captured, j, i - s.windowOffset);
        ClaimedEither(valid, here, i);
        ClaimedOne(here, i);
      }
      valid := valid + here;
    }
    TakeAll(captured);
  }

  lemma {:induction false} ClaimedOne(here: seq<ValidRun>, i: int)
    requires |here| <= 1
    ensures Claimed(here, i) <==> here != [] && Claims(here[0], i)
  {
  }

  lemma {:induction false} SegmentInside(p: Projection, k: nat)
    requires Partition(p) && k < |p.segments|
    ensures var s := p.segments[k]; 0 <= s.windowOffset && s.length > 0 && s.windowOffset + s.length <= p.length
  {
    var spans, s := Spans(p.segments, p.gaps), p.segments[k];
    assert spans[k].len > 0;
    SpansApart(spans, p.length, k, k, s.windowOffset);
    SpansApart(spans, p.length, k, k, s.windowOffset + s.length - 1);
  }

  // ---- what every index holds ---------------------------------------------------------------------------

  /** No segment among the first `n` other than `k` has index `i`: it holds what segment `k` reads. */
  lemma {:induction false} OnlySegment(dump: Dump, p: Projection, n: nat, k: nat, i: int)
    requires Partition(p) && ReadsAtMost(dump) && n <= |p.segments| && k < |p.segments| && p.segments[k].Has(i)
    ensures var data := ReadOf(dump, p.segments[k]).data; var j := i - p.segments[k].windowOffset;
            ByteAt(dump, p.segments, n, i) == if k < n && j < |data| then data[j] else 0
  {
    if n > 0 {
      OnlySegment(dump, p, n - 1, k, i);
      if n - 1 != k {
        var spans, s := Spans(p.segments, p.gaps), p.segments[n - 1];
        assert spans[k].Covers(i);
        if spans[n - 1].Covers(i) { SpansApart(spans, p.length, k, n - 1, i); }
        SegmentInside(p, n - 1);
        assert |ReadOf(dump, s).data| <= s.length;
      }
    }
  }

  /** In a segment the window holds what that segment's read returned, and is present exactly
      where the read says the byte was captured. */
  lemma {:induction false} SegmentHolds(dump: Dump, p: Projection, k: nat, i: int)
    requires Partition(p) && ReadsAtMost(dump) && k < |p.segments| && p.segments[k].Has(i)
    ensures var data := ReadOf(dump, p.segments[k]).data; var j := i - p.segments[k].windowOffset;
            ByteAt(dump, p.segments, |p.segments|, i) == if j < |data| then data[j] else 0
    ensures HeldAt(dump, p.segments, |p.segments|, i) <==> HeldIn(dump, p.segments[k], i)
  {
    OnlySegment(dump, p, |p.segments|, k, i);
    var spans := Spans(p.segments, p.gaps);
    assert spans[k].Covers(i);
    forall j | 0 <= j < |p.segments| && HeldIn(dump, p.segments[j], i) ensures j == k {
      assert spans[j].Covers(i);
      SpansApart(spans, p.length, k, j, i);
    }
  }

  lemma {:induction false} NothingBefore(dump: Dump, p: Projection, n: nat, i: int)
    requires Partition(p) && ReadsAtMost(dump) && n <= |p.segments| && !InSegment(p, i)
    ensures ByteAt(dump, p.segments, n, i) == 0 && !HeldAt(dump, p.segments, n, i)
  {
    if n > 0 {
      NothingBefore(dump, p, n - 1, i);
      SegmentInside(p, n - 1);
      assert !p.segments[n - 1].Has(i);
      assert |ReadOf(dump, p.segments[n - 1]).data| <= p.segments[n - 1].length;
    }
  }

  /** At an index outside every segment, so at every gap index, a dump holds a zero that it does
      not claim; the same in a segment it has no place for. */
  lemma {:induction false} NothingOutside(dump: Dump, p: Projection, i: int)
    requires Partition(p) && ReadsAtMost(dump)
    requires forall k :: 0 <= k < |p.segments| && p.segments[k].Has(i) ==> SegmentOffset(dump, p.segments[k]).None?
    ensures ByteAt(dump, p.segments, |p.segments|, i) == 0 && !HeldAt(dump, p.segments, |p.segments|, i)
  {
    if InSegment(p, i) {
      var k :| 0 <= k < |p.segments| && p.segments[k].Has(i);
      SegmentHolds(dump, p, k, i);
    } else {
      NothingBefore(dump, p, |p.segments|, i);
    }
  }

  // ---- all dumps -----------------------------------------------------------------------------------------

  /** The values index `i` has in the unlocked dumps that captured it. */
  ghost function HeldValues(dumps: seq<Dump>, p: Projection, n: nat, i: int): set<int>
    requires n <= |dumps|
  {
    set d | 0 <= d < n && dumps[d].decrypted && HeldAt(dumps[d], p.segments, |p.segments|, i)
      :: ByteAt(dumps[d], p.segments, |p.segments|, i) as int
  }

  ghost predicate Comparable(buffers: seq<seq<byte>>, valids: seq<seq<ValidRun>>, dumps: seq<Dump>, p: Projection,
                             n: nat)
    requires n <= |dumps|
  {
    && |buffers| == |valids|
    && (forall d :: 0 <= d < |buffers| ==> |buffers[d]| == p.length)
    && forall i: nat :: i < p.length ==> PresentValues(buffers, valids, i) == HeldValues(dumps, p, n, i)
  }

  /** Reads every selected dump and counts, per index, the distinct values held there. A locked
      dump contributes nothing; a call that asks for no bytes compares nothing. */
  method CompareDumps(dumps: seq<Dump>, p: Projection, includeBytes: bool)
    returns (blocks: seq<Block>, variants: seq<int>)
    requires Partition(p) && forall d :: 0 <= d < |dumps| ==> ReadsAtMost(dumps[d])
    ensures |blocks| == |dumps| && |variants| == p.length
    ensures forall i :: 0 <= i < p.length ==>
              variants[i] == if includeBytes then |HeldValues(dumps, p, |dumps|, i)| else 0
  {
    blocks := [];
    var buffers: seq<seq<byte>>, valids: seq<seq<ValidRun>> := [], [];
    for d := 0 to |dumps|
      invariant |blocks| == d
      invariant if includeBytes then Comparable(buffers, valids, dumps, p, d) else buffers == [] && valids == []
    {
      var block := ReadDumpWindow(dumps[d], p, includeBytes);
      blocks := blocks + [block];
      if block.bytes.Some? {
        OneMoreDump(buffers, valids, dumps, p, d, block.bytes.value, block.valid);
        buffers, valids := buffers + [block.bytes.value], valids + [block.valid];
      } else if includeBytes {
        forall i: nat | i < p.length ensures HeldValues(dumps, p, d + 1, i) == HeldValues(dumps, p, d, i) {}
      }
    }
    variants := CrossDumpRuns(buffers, valids, p.length);
  }

  lemma {:induction false} OneMoreDump(buffers: seq<seq<byte>>, valids: seq<seq<ValidRun>>, dumps: seq<Dump>,
                                       p: Projection, n: nat, bytes: seq<byte>, valid: seq<ValidRun>)
    requires n < |dumps| && Comparable(buffers, valids, dumps, p, n) && dumps[n].decrypted
    requires Filled(bytes, dumps[n], p, |p.segments|) && Presence(valid, dumps[n], p, |p.segments|)
    ensures Comparable(buffers + [bytes], valids + [valid], dumps, p, n + 1)
  {
    var more, moreValid := buffers + [bytes], valids + [valid];
    forall i: nat | i < p.length ensures PresentValues(more, moreValid, i) == HeldValues(dumps, p, n + 1, i) {
      var here := if HeldAt(dumps[n], p.segments, |p.segments|, i)
                  then {ByteAt(dumps[n], p.segments, |p.segments|, i) as int} else {};
      assert HeldValues(dumps, p, n + 1, i) == HeldValues(dumps, p, n, i) + here;
      PresentNext(buffers, valids, bytes, valid, i);
    }
  }

  lemma {:induction false} PresentNext(buffers: seq<seq<byte>>, valids: seq<seq<ValidRun>>, bytes: seq<byte>,
                                       valid: seq<ValidRun>, i: nat)
    requires |buffers| == |valids| && (forall d :: 0 <= d < |buffers| ==> i < |buffers[d]|) && i < |bytes|
    ensures PresentValues(buffers + [bytes], valids + [valid], i)
         == PresentValues(buffers, valids, i) + if Claimed(valid, i) then {bytes[i] as int} else {}
  {
    var more, moreValid := buffers + [bytes], valids + [valid];
    forall x | x in PresentValues(buffers, valids, i) ensures x in PresentValues(more, moreValid, i) {
      var d :| 0 <= d < |buffers| && Claimed(valids[d], i) && buffers[d][i] as int == x;
      assert more[d] == buffers[d] && moreValid[d] == valids[d];
    }
    assert more[|buffers|] == bytes && moreValid[|buffers|] == valid;
  }

  /** An index is a differ exactly when two unlocked dumps captured it and hold different bytes. */
  lemma {:induction false} DifferMeansDisagreement(dumps: seq<Dump>, p: Projection, i: int)
    ensures |HeldValues(dumps, p, |dumps|, i)| >= 2 <==>
            exists d, e :: 0 <= d < e < |dumps| && HoldsByte(dumps[d], p, i) && HoldsByte(dumps[e], p, i)
              && ByteAt(dumps[d], p.segments, |p.segments|, i) != ByteAt(dumps[e], p.segments, |p.segments|, i)
  {
    var s := HeldValues(dumps, p, |dumps|, i);
    AtLeastTwo(s);
    if x, y :| x in s && y in s && x != y {
      var d :| 0 <= d < |dumps| && HoldsByte(dumps[d], p, i)
               && ByteAt(dumps[d], p.segments, |p.segments|, i) as int == x;
      var e :| 0 <= e < |dumps| && HoldsByte(dumps[e], p, i)
               && ByteAt(dumps[e], p.segments, |p.segments|, i) as int == y;
      assert d < e || e < d;
    }
    if d, e :| 0 <= d < e < |dumps| && HoldsByte(dumps[d], p, i) && HoldsByte(dumps[e], p, i)
               && ByteAt(dumps[d], p.segments, |p.segments|, i) != ByteAt(dumps[e], p.segments, |p.segments|, i) {
      assert ByteAt(dumps[d], p.segments, |p.segments|, i) as int in s;
      assert ByteAt(dumps[e], p.segments, |p.segments|, i) as int in s;
    }
  }

  ghost predicate HoldsByte(dump: Dump, p: Projection, i: int) {
    dump.decrypted && HeldAt(dump, p.segments, |p.segments|, i)
  }

  /** The whole window at once: at a gap index no class is reported, no dump's byte is claimed and
      no value is counted. */
  lemma {:induction false} GapIsSilent(dumps: seq<Dump>, p: Projection, pieces: seq<Piece>, classCodes: seq<int>,
                                       i: int)
    requires Partition(p) && (forall d :: 0 <= d < |dumps| ==> ReadsAtMost(dumps[d]))
    requires Classified(p.classes, pieces, classCodes) && NoneOwned(p.gaps, pieces) && InGap(p, i)
    ensures 0 <= i < p.length && p.classes[i] == -1 && |HeldValues(dumps, p, |dumps|, i)| == 0
    ensures forall d :: 0 <= d < |dumps| ==> ByteAt(dumps[d], p.segments, |p.segments|, i) == 0
  {
    GapXorSegment(p, i);
    var k :| 0 <= k < |p.gaps| && p.gaps[k].0 <= i < p.gaps[k].0 + p.gaps[k].1;
    assert Unowned(p.gaps[k], pieces);
    forall d | 0 <= d < |dumps|
      ensures ByteAt(dumps[d], p.segments, |p.segments|, i) == 0 && !HeldAt(dumps[d], p.segments, |p.segments|, i)
    {
      NothingOutside(dumps[d], p, i);
    }
    assert HeldValues(dumps, p, |dumps|, i) == {};
  }
}
