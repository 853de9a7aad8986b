/** Disassembling the captured stretches of a window within an instruction budget
    (app/tools_disasm.py). */
module Disassembly {
  import opened Sequences
  import opened LabelledRuns

  // ---- decoding ----------------------------------------------------------------------------------------

  datatype Insn = Insn(addr: int, bytes: seq<byte>, text: string)

  datatype Row = Row(addr: int, bytes: seq<byte>, text: string, undecodable: bool)

  datatype Stop = Stop(addr: int, offset: int)

  /** A decoder: the instructions it finds at the start of some bytes at some address. */
  type Decoder = (seq<byte>, int) -> seq<Insn>

  ghost function InsnBytes(insns: seq<Insn>, n: nat): seq<byte>
    requires n <= |insns|
  {
    if n == 0 then [] else InsnBytes(insns, n - 1) + insns[n - 1].bytes
  }

  /** What a decoder promises: instructions of at least one byte, one after the other, that are
      the bytes it was given. */
  ghost predicate Sound(decode: Decoder) {
    forall data, addr {:trigger Faithful(decode(data, addr), data, addr)} :: Faithful(decode(data, addr), data, addr)
  }

  ghost predicate Faithful(insns: seq<Insn>, data: seq<byte>, addr: int) {
    && |InsnBytes(insns, |insns|)| <= |data|
    && InsnBytes(insns, |insns|) == data[..|InsnBytes(insns, |insns|)|]
    && (forall k :: 0 <= k < |insns| ==> insns[k].bytes != [] && insns[k].addr == addr + |InsnBytes(insns, k)|)
  }

  function RowsOf(insns: seq<Insn>, n: nat): (r: seq<Row>)
    requires n <= |insns|
    ensures |r| == n
  {
    if n == 0 then [] else RowsOf(insns, n - 1) + [Row(insns[n - 1].addr, insns[n - 1].bytes, insns[n - 1].text, false)]
  }

  /** The whole listing of a stretch from `offset` on: what the decoder finds, then a row for the
      bytes it cannot decode, then what it finds after them. */
  ghost function Listing(decode: Decoder, data: seq<byte>, start: int, offset: nat, skip: nat): seq<Row>
    requires Sound(decode) && offset <= |data| && skip >= 1
    decreases |data| - offset, 1
  {
    if offset == |data| then []
    else
      InsnRowsAt(decode, data, start, offset)
        + AfterInsns(decode, data, start, StopsAt(decode, data, start, offset), skip)
  }

  /** What the decoder finds at `offset` of a stretch. */
  function Decoded(decode: Decoder, data: seq<byte>, start: int, offset: nat): seq<Insn>
    requires offset <= |data|
  {
    decode(data[offset..], start + offset)
  }

  ghost function InsnRowsAt(decode: Decoder, data: seq<byte>, start: int, offset: nat): seq<Row>
    requires offset <= |data|
  {
    var insns := Decoded(decode, data, start, offset);
    RowsOf(insns, |insns|)
  }

  /** Where a decoder started at `offset` stops. */
  ghost function StopsAt(decode: Decoder, data: seq<byte>, start: int, offset: nat): (next: nat)
    requires Sound(decode) && offset <= |data|
    ensures offset <= next <= |data|
  {
    var insns := Decoded(decode, data, start, offset);
    assert Faithful(insns, data[offset..], start + offset);
    offset + |InsnBytes(insns, |insns|)|
  }

  /** The rest of the listing once the decoder stops at `next`. */
  ghost function AfterInsns(decode: Decoder, data: seq<byte>, start: int, next: nat, skip: nat): seq<Row>
    requires Sound(decode) && next <= |data| && skip >= 1
    decreases |data| - next, 0
  {
    if next == |data| then []
    else
      var bad := BadRow(data, start, next, skip);
      [bad] + Listing(decode, data, start, next + |bad.bytes|, skip)
  }

  /** The row for the bytes at `offset` that do not decode. */
  function BadRow(data: seq<byte>, start: int, offset: nat, skip: nat): (r: Row)
    requires offset < |data| && skip >= 1
    ensures r.bytes != [] && offset + |r.bytes| <= |data| && r.bytes == data[offset..offset + |r.bytes|]
  {
    Row(start + offset, data[offset..Min(offset + skip, |data|)], ".byte", true)
  }

  ghost function Bytes(rows: seq<Row>): seq<byte> {
    if rows == [] then [] else Bytes(rows[..|rows| - 1]) + rows[|rows| - 1].bytes
  }

  /** Rows of at least one byte, each at the address where the one before it ends. */
  ghost predicate Contiguous(rows: seq<Row>, start: int) {
    rows != [] ==>
      var init, last := rows[..|rows| - 1], rows[|rows| - 1];
      Contiguous(init, start) && last.bytes != [] && last.addr == start + |Bytes(init)|
  }

  lemma {:induction false} BytesAppend(x: seq<Row>, y: seq<Row>)
    ensures Bytes(x + y) == Bytes(x) + Bytes(y)
  {
    if y == [] {
      AppendNothing(x);
      AppendNothing(Bytes(x));
    } else {
      var n := |y| - 1;
      BytesAppend(x, y[..n]);
      assert (x + y)[..|x| + n] == x + y[..n];
      assert (Bytes(x) + Bytes(y[..n])) + y[n].bytes == Bytes(x) + (Bytes(y[..n]) + y[n].bytes);
    }
  }

  lemma {:induction false} ContiguousAppend(x: seq<Row>, y: seq<Row>, start: int)
    requires Contiguous(x, start) && Contiguous(y, start + |Bytes(x)|)
    ensures Contiguous(x + y, start)
  {
    if y == [] {
      AppendNothing(x);
    } else {
      var init := y[..|y| - 1];
      ContiguousAppend(x, init, start);
      BytesAppend(x, init);
      assert (x + y)[..|x + y| - 1] == x + init;
    }
  }

  lemma {:induction false} RowAt(insns: seq<Insn>, n: nat, k: nat)
    requires k < n <= |insns|
    ensures RowsOf(insns, n)[..k] == RowsOf(insns, k)
    ensures RowsOf(insns, n)[k] == Row(insns[k].addr, insns[k].bytes, insns[k].text, false)
  {
    if k < n - 1 {
      RowAt(insns, n - 1, k);
      assert RowsOf(insns, n)[..k] == RowsOf(insns, n - 1)[..k];
    } else {
      assert RowsOf(insns, n)[..k] == RowsOf(insns, k);
    }
  }

  lemma {:induction false} InsnRows(insns: seq<Insn>, n: nat, addr: int)
    requires n <= |insns|
    requires forall k :: 0 <= k < |insns| ==> insns[k].bytes != [] && insns[k].addr == addr + |InsnBytes(insns, k)|
    ensures Bytes(RowsOf(insns, n)) == InsnBytes(insns, n) && Contiguous(RowsOf(insns, n), addr)
  {
    if n > 0 {
      InsnRows(insns, n - 1, addr);
      PrefixOf(RowsOf(insns, n - 1), [Row(insns[n - 1].addr, insns[n - 1].bytes, insns[n - 1].text, false)]);
    }
  }

  /** Rows that list `data[offset..next]` and rows that list the rest list all of it. */
  ghost predicate Lists(rows: seq<Row>, data: seq<byte>, start: int, from: nat, to: nat) {
    from <= to <= |data| && Bytes(rows) == data[from..to] && Contiguous(rows, start + from)
  }

  lemma {:induction false} ListsJoin(x: seq<Row>, y: seq<Row>, data: seq<byte>, start: int, from: nat, mid: nat,
                                     to: nat)
    requires Lists(x, data, start, from, mid) && Lists(y, data, start, mid, to)
    ensures Lists(x + y, data, start, from, to)
  {
    BytesAppend(x, y);
    ContiguousAppend(x, y, start + from);
    assert data[from..mid] + data[mid..to] == data[from..to];
  }

  /** The listing of a stretch is its bytes, all of them and in order. */
  lemma {:induction false} ListingIsStretch(decode: Decoder, data: seq<byte>, start: int, offset: nat, skip: nat)
    requires Sound(decode) && offset <= |data| && skip >= 1
    ensures Lists(Listing(decode, data, start, offset, skip), data, start, offset, |data|)
    decreases |data| - offset, 1
  {
    if offset < |data| {
      var next := StopsAt(decode, data, start, offset);
      InsnsList(decode, data, start, offset);
      AfterIsRest(decode, data, start, next, skip);
      ListsJoin(InsnRowsAt(decode, data, start, offset), AfterInsns(decode, data, start, next, skip),
                data, start, offset, next, |data|);
    }
  }

  lemma {:induction false} InsnsList(decode: Decoder, data: seq<byte>, start: int, offset: nat)
    requires Sound(decode) && offset <= |data|
    ensures Lists(InsnRowsAt(decode, data, start, offset), data, start, offset, StopsAt(decode, data, start, offset))
  {
    var insns := decode(data[offset..], start + offset);
    assert Faithful(insns, data[offset..], start + offset);
    InsnRows(insns, |insns|, start + offset);
    SliceOfSuffix(data, offset, |InsnBytes(insns, |insns|)|);
  }

  lemma {:induction false} AfterIsRest(decode: Decoder, data: seq<byte>, start: int, next: nat, skip: nat)
    requires Sound(decode) && next <= |data| && skip >= 1
    ensures Lists(AfterInsns(decode, data, start, next, skip), data, start, next, |data|)
    decreases |data| - next, 0
  {
    if next < |data| {
      var bad := BadRow(data, start, next, skip);
      BadLists(data, start, next, skip);
      ListingIsStretch(decode, data, start, next + |bad.bytes|, skip);
      ListsJoin([bad], Listing(decode, data, start, next + |bad.bytes|, skip), data, start,
                next, next + |bad.bytes|, |data|);
    }
  }

  lemma {:induction false} BadLists(data: seq<byte>, start: int, next: nat, skip: nat)
    requires next < |data| && skip >= 1
    ensures var bad := BadRow(data, start, next, skip); Lists([bad], data, start, next, next + |bad.bytes|)
  {
    OneRow(BadRow(data, start, next, skip));
  }

  lemma {:induction false} OneRow(row: Row)
    ensures Bytes([row]) == row.bytes
    ensures row.bytes != [] ==> Contiguous([row], row.addr)
  {
    assert [row][..0] == [];
    assert [] + row.bytes == row.bytes;
  }

  // ---- the budgeted loops ----------------------------------------------------------------------------------

  ghost function Stops(rows: seq<Row>, start: int): seq<Stop> {
    if rows == [] then []
    else
      var last := rows[|rows| - 1];
      Stops(rows[..|rows| - 1], start) + if last.undecodable then [Stop(last.addr, last.addr - start)] else []
  }

  lemma {:induction false} OneMoreStop(rows: seq<Row>, row: Row, start: int)
    ensures Stops(rows + [row], start)
              == Stops(rows, start) + if row.undecodable then [Stop(row.addr, row.addr - start)] else []
  {
    assert (rows + [row])[..|rows|] == rows;
  }

  lemma {:induction false} OneMoreInsn(before: seq<Row>, insns: seq<Insn>, j: nat, start: int)
    requires j < |insns|
    ensures var row := Row(insns[j].addr, insns[j].bytes, insns[j].text, false);
            && before + RowsOf(insns, j) + [row] == before + RowsOf(insns, j + 1)
            && Stops(before + RowsOf(insns, j + 1), start) == Stops(before + RowsOf(insns, j), start)
  {
    var row := Row(insns[j].addr, insns[j].bytes, insns[j].text, false);
    assert before + RowsOf(insns, j) + [row] == before + RowsOf(insns, j + 1);
    OneMoreStop(before + RowsOf(insns, j), row, start);
    AppendNothing(Stops(before + RowsOf(insns, j), start));
  }

  lemma {:induction false} CutAt(all: seq<Row>, before: seq<Row>, insns: seq<Insn>, j: nat, rest: seq<Row>)
    requires j < |insns| && all == (before + RowsOf(insns, |insns|)) + rest
    ensures IsCut(before + RowsOf(insns, j), all, |before| + j, true)
  {
    RowAt(insns, |insns|, j);
    var listed := RowsOf(insns, |insns|);
    assert listed == listed[..j] + listed[j..];
    Associative(before, listed[..j], listed[j..]);
    Associative(before + listed[..j], listed[j..], rest);
    PrefixOf(before + listed[..j], listed[j..] + rest);
  }

  /** Some rows of a listing are done; the listing from `offset` on is still to come. */
  ghost predicate Along(all: seq<Row>, rows: seq<Row>, stops: seq<Stop>, decode: Decoder, data: seq<byte>, start: int,
                        offset: nat, skip: nat)
    requires Sound(decode) && offset <= |data| && skip >= 1
  {
    all == rows + Listing(decode, data, start, offset, skip) && stops == Stops(rows, start)
  }

  lemma {:induction false} ListingUnfolds(all: seq<Row>, before: seq<Row>, stops: seq<Stop>, decode: Decoder,
                                          data: seq<byte>, start: int, offset: nat, skip: nat)
    requires Sound(decode) && offset < |data| && skip >= 1
             && Along(all, before, stops, decode, data, start, offset, skip)
    ensures var insns := Decoded(decode, data, start, offset); var next := StopsAt(decode, data, start, offset);
            var rest := AfterInsns(decode, data, start, next, skip);
            && next == offset + |InsnBytes(insns, |insns|)|
            && all == (before + RowsOf(insns, |insns|)) + rest
  {
    var insns := Decoded(decode, data, start, offset);
    Associative(before, RowsOf(insns, |insns|),
                AfterInsns(decode, data, start, StopsAt(decode, data, start, offset), skip));
  }

  lemma {:induction false} AfterUnfolds(all: seq<Row>, rows: seq<Row>, stops: seq<Stop>, decode: Decoder,
                                        data: seq<byte>, start: int, next: nat, skip: nat)
    requires Sound(decode) && next < |data| && skip >= 1
    requires all == rows + AfterInsns(decode, data, start, next, skip) && stops == Stops(rows, start)
    ensures |all| > |rows| && rows == all[..|rows|]
    ensures var bad := BadRow(data, start, next, skip);
            Along(all, rows + [bad], stops + [Stop(bad.addr, next)], decode, data, start, next + |bad.bytes|, skip)
  {
    var bad := BadRow(data, start, next, skip);
    OneMore(all, rows, bad, Listing(decode, data, start, next + |bad.bytes|, skip));
    OneMoreStop(rows, bad, start);
  }

  ghost predicate IsCut(rows: seq<Row>, all: seq<Row>, budget: nat, cut: bool) {
    rows == all[..Min(budget, |all|)] && (cut <==> |all| > budget)
  }

  /** The first `budget` rows of one stretch's listing, whether the budget cut it, and the
      undecodable positions among those rows. */
  method DecodeStretch(decode: Decoder, data: seq<byte>, start: int, skip: nat, budget: nat)
    returns (rows: seq<Row>, stops: seq<Stop>, cut: bool)
    requires Sound(decode) && skip >= 1
    ensures IsCut(rows, Listing(decode, data, start, 0, skip), budget, cut)
    ensures stops == Stops(rows, start)
  {
    rows, stops, cut := [], [], false;
    var offset := 0;
    ghost var all := Listing(decode, data, start, 0, skip);
    while offset < |data| && !cut
      invariant offset <= |data| && |rows| <= budget
      invariant BlockDone(all, rows, stops, decode, data, start, offset, skip, budget, cut)
      decreases !cut, |data| - offset
    {
      rows, stops, offset, cut := DecodeBlock(all, rows, stops, decode, data, start, offset, skip, budget);
    }
    if !cut {
      AppendNothing(rows);
      TakeAll(rows);
    }
  }

  /** One run of the decoder and the row for the bytes it stops at. */
  method DecodeBlock(ghost all: seq<Row>, before: seq<Row>, stopped: seq<Stop>, decode: Decoder, data: seq<byte>,
                     start: int, from: nat, skip: nat, budget: nat)
    returns (rows: seq<Row>, stops: seq<Stop>, offset: nat, cut: bool)
    requires Sound(decode) && from < |data| && skip >= 1 && |before| <= budget
    requires Along(all, before, stopped, decode, data, start, from, skip)
    ensures |rows| <= budget && from <= offset <= |data| && (!cut ==> from < offset)
    ensures BlockDone(all, rows, stops, decode, data, start, offset, skip, budget, cut)
  {
    var insns := Decoded(decode, data, start, from);
    ListingUnfolds(all, before, stopped, decode, data, start, from, skip);
    var size: nat;
    rows, size, cut := TakeInsns(insns, before, budget, start);
    if cut {
      CutAt(all, before, insns, budget - |before|,
            AfterInsns(decode, data, start, StopsAt(decode, data, start, from), skip));
      return rows, stopped, from, true;
    }
    rows, stops, offset, cut := StepOver(all, rows, stopped, decode, data, start, from + size, skip, budget);
  }

  ghost predicate BlockDone(all: seq<Row>, rows: seq<Row>, stops: seq<Stop>, decode: Decoder, data: seq<byte>,
                            start: int, offset: nat, skip: nat, budget: nat, cut: bool)
    requires Sound(decode) && offset <= |data| && skip >= 1
  {
    if cut then IsCut(rows, all, budget, true) && stops == Stops(rows, start)
    else Along(all, rows, stops, decode, data, start, offset, skip)
  }

  /** A row for the bytes the decoder stopped at, if any are left and the budget allows it. */
  method StepOver(ghost all: seq<Row>, before: seq<Row>, stopped: seq<Stop>, decode: Decoder, data: seq<byte>,
                  start: int, next: nat, skip: nat, budget: nat)
    returns (rows: seq<Row>, stops: seq<Stop>, offset: nat, cut: bool)
    requires Sound(decode) && next <= |data| && skip >= 1 && |before| <= budget
    requires all == before + AfterInsns(decode, data, start, next, skip) && stopped == Stops(before, start)
    ensures |rows| <= budget && next <= offset <= |data|
    ensures BlockDone(all, rows, stops, decode, data, start, offset, skip, budget, cut)
    ensures !cut && next < |data| ==> next < offset
  {
    if next >= |data| {
      return before, stopped, next, false;
    }
    AfterUnfolds(all, before, stopped, decode, data, start, next, skip);
    if |before| >= budget {
      return before, stopped, next, true;
    }
    var bad := BadRow(data, start, next, skip);
    rows, stops, offset, cut := before + [bad], stopped + [Stop(bad.addr, next)], next + |bad.bytes|, false;
    assert Along(all, rows, stops, decode, data, start, offset, skip);
  }

  /** Appends the decoder's instructions as rows until the budget is reached. */
  method TakeInsns(insns: seq<Insn>, before: seq<Row>, budget: nat, ghost start: int)
    returns (rows: seq<Row>, size: nat, full: bool)
    requires |before| <= budget
    ensures |before| <= |rows| <= |before| + |insns| && rows == before + RowsOf(insns, |rows| - |before|)
    ensures if full then |rows| == budget < |before| + |insns|
            else rows == before + RowsOf(insns, |insns|) && |rows| <= budget && size == |InsnBytes(insns, |insns|)|
    ensures Stops(rows, start) == Stops(before, start)
  {
    rows, size := before, 0;
    AppendNothing(before);
    for j := 0 to |insns|
      invariant size == |InsnBytes(insns, j)|
      invariant rows == before + RowsOf(insns, j) && |rows| <= budget && Stops(rows, start) == Stops(before, start)
    {
      if |rows| >= budget {
        return rows, size, true;
      }
      OneMoreInsn(before, insns, j, start);
      rows := rows + [Row(insns[j].addr, insns[j].bytes, insns[j].text, false)];
      size := size + |insns[j].bytes|;
    }
    full := false;
  }

  // ---- all stretches ---------------------------------------------------------------------------------------

  /** A captured stretch: its address and its bytes. */
  datatype Stretch = Stretch(start: int, data: seq<byte>)

  ghost function ListingAll(decode: Decoder, stretches: seq<Stretch>, n: nat, skip: nat): seq<Row>
    requires Sound(decode) && n <= |stretches| && skip >= 1
  {
    if n == 0 then []
    else
      ListingAll(decode, stretches, n - 1, skip)
      + Listing(decode, stretches[n - 1].data, stretches[n - 1].start, 0, skip)
  }

  ghost function CapturedBytes(stretches: seq<Stretch>, n: nat): seq<byte>
    requires n <= |stretches|
  {
    if n == 0 then [] else CapturedBytes(stretches, n - 1) + stretches[n - 1].data
  }

  ghost function BadAddrs(rows: seq<Row>): seq<int> {
    if rows == [] then []
    else BadAddrs(rows[..|rows| - 1]) + if rows[|rows| - 1].undecodable then [rows[|rows| - 1].addr] else []
  }

  function StopAddrs(stops: seq<Stop>): (r: seq<int>)
    ensures |r| == |stops| && forall k :: 0 <= k < |r| ==> r[k] == stops[k].addr
  {
    seq(|stops|, k requires 0 <= k < |stops| => stops[k].addr)
  }

  lemma {:induction false} StopsAreBad(rows: seq<Row>, start: int)
    ensures StopAddrs(Stops(rows, start)) == BadAddrs(rows)
  {
    if rows != [] { StopsAreBad(rows[..|rows| - 1], start); }
  }

  lemma {:induction false} BadSnoc(x: seq<Row>, r: Row)
    ensures BadAddrs(x + [r]) == BadAddrs(x) + if r.undecodable then [r.addr] else []
  {
    PrefixOf(x, [r]);
  }

  lemma {:induction false} BadAppend(x: seq<Row>, y: seq<Row>)
    ensures BadAddrs(x + y) == BadAddrs(x) + BadAddrs(y)
  {
    if y == [] {
      AppendNothing(x);
      AppendNothing(BadAddrs(x));
    } else {
      var init, last := y[..|y| - 1], y[|y| - 1];
      SplitLast(y);
      BadAppend(x, init);
      Associative(x, init, [last]);
      BadSnoc(x + init, last);
      BadSnoc(init, last);
      Associative(BadAddrs(x), BadAddrs(init), if last.undecodable then [last.addr] else []);
    }
  }

  lemma {:induction false} MoreStops(stops: seq<Stop>, more: seq<Stop>, rows: seq<Row>, part: seq<Row>, start: int)
    requires StopAddrs(stops) == BadAddrs(rows) && more == Stops(part, start)
    ensures StopAddrs(stops + more) == BadAddrs(rows + part)
  {
    StopsAreBad(part, start);
    BadAppend(rows, part);
    assert StopAddrs(stops + more) == StopAddrs(stops) + StopAddrs(more);
  }

  /** The first `maxInsns` rows of the whole listing, whether that left rows out, and a stop for
      every undecodable row among them. */
  method Decode(decode: Decoder, stretches: seq<Stretch>, skip: nat, maxInsns: nat)
    returns (rows: seq<Row>, stops: seq<Stop>, truncated: bool)
    requires Sound(decode) && skip >= 1
    ensures IsCut(rows, ListingAll(decode, stretches, |stretches|, skip), maxInsns, truncated)
    ensures StopAddrs(stops) == BadAddrs(rows)
  {
    rows, stops := [], [];
    for i := 0 to |stretches|
      invariant rows == ListingAll(decode, stretches, i, skip) && |rows| <= maxInsns
      invariant StopAddrs(stops) == BadAddrs(rows)
    {
      var part, more, cut := DecodeStretch(decode, stretches[i].data, stretches[i].start, skip, maxInsns - |rows|);
      ghost var all, bad := rows + part, stops + more;
      DecodeNext(decode, stretches, i, skip, maxInsns, rows, stops, part, more, cut);
      stops := stops + more;
      rows := rows + part;
      assert rows == all && stops == bad;
      if cut {
        return rows, stops, true;
      }
    }
    TakeAll(rows);
    truncated := false;
  }

  lemma {:induction false} ListingGrows(decode: Decoder, stretches: seq<Stretch>, m: nat, n: nat, skip: nat)
    requires Sound(decode) && m <= n <= |stretches| && skip >= 1
    ensures ListingAll(decode, stretches, m, skip) <= ListingAll(decode, stretches, n, skip)
    decreases n - m
  {
    if m < n { ListingGrows(decode, stretches, m, n - 1, skip); }
  }

  /** One more stretch: what its rows and stops add to those so far. */
  lemma {:induction false} DecodeNext(decode: Decoder, stretches: seq<Stretch>, i: nat, skip: nat, maxInsns: nat,
                                      rows: seq<Row>, stops: seq<Stop>, part: seq<Row>, more: seq<Stop>, cut: bool)
    requires Sound(decode) && i < |stretches| && skip >= 1
    requires rows == ListingAll(decode, stretches, i, skip) && |rows| <= maxInsns && StopAddrs(stops) == BadAddrs(rows)
    requires IsCut(part, Listing(decode, stretches[i].data, stretches[i].start, 0, skip), maxInsns - |rows|, cut)
    requires more == Stops(part, stretches[i].start)
    ensures StopAddrs(stops + more) == BadAddrs(rows + part)
    ensures if cut then IsCut(rows + part, ListingAll(decode, stretches, |stretches|, skip), maxInsns, true)
            else rows + part == ListingAll(decode, stretches, i + 1, skip) && |rows + part| <= maxInsns
  {
    MoreStops(stops, more, rows, part, stretches[i].start);
    CutPart(decode, stretches, i, skip, part, maxInsns, cut);
  }

  lemma {:induction false} CutPart(decode: Decoder, stretches: seq<Stretch>, i: nat, skip: nat, part: seq<Row>,
                                   maxInsns: nat, cut: bool)
    requires Sound(decode) && i < |stretches| && skip >= 1 && |ListingAll(decode, stretches, i, skip)| <= maxInsns
    requires IsCut(part, Listing(decode, stretches[i].data, stretches[i].start, 0, skip),
                   maxInsns - |ListingAll(decode, stretches, i, skip)|, cut)
    ensures var rows := ListingAll(decode, stretches, i, skip) + part;
            if cut then IsCut(rows, ListingAll(decode, stretches, |stretches|, skip), maxInsns, true)
            else rows == ListingAll(decode, stretches, i + 1, skip) && |rows| <= maxInsns
  {
    var done := ListingAll(decode, stretches, i, skip);
    var here := Listing(decode, stretches[i].data, stretches[i].start, 0, skip);
    if cut {
      ListingGrows(decode, stretches, i + 1, |stretches|, skip);
      CutLonger(done, here, part, ListingAll(decode, stretches, |stretches|, skip), maxInsns);
    } else {
      TakeAll(here);
    }
  }

  lemma {:induction false} CutLonger(done: seq<Row>, here: seq<Row>, part: seq<Row>, all: seq<Row>, maxInsns: nat)
    requires |done| <= maxInsns && done + here <= all && IsCut(part, here, maxInsns - |done|, true)
    ensures IsCut(done + part, all, maxInsns, true)
  {
    assert all[..|done| + |part|] == (done + here)[..|done| + |part|];
  }

  // ---- what the rows are ------------------------------------------------------------------------------------

  /** The row lies inside one stretch and holds that stretch's bytes. */
  ghost predicate Within(row: Row, s: Stretch) {
    var at := row.addr - s.start;
    row.bytes != [] && 0 <= at && at + |row.bytes| <= |s.data| && row.bytes == s.data[at..at + |row.bytes|]
  }

  ghost predicate AllWithin(rows: seq<Row>, stretches: seq<Stretch>) {
    forall k :: 0 <= k < |rows| ==> exists i :: 0 <= i < |stretches| && Within(rows[k], stretches[i])
  }

  /** Where the decoder stops when it is started at `from` of a stretch. */
  ghost function EndOf(insns: seq<Insn>, addr: int): int {
    if insns == [] then addr else insns[|insns| - 1].addr + |insns[|insns| - 1].bytes|
  }

  /** The row is an instruction that the decoder finds from `from` on, or the bytes it stops at: as many as
      it is to skip, or all that are left. */
  ghost predicate FromDecoder(decode: Decoder, row: Row, s: Stretch, skip: nat, from: nat) {
    from <= |s.data| &&
    var insns, at := decode(s.data[from..], s.start + from), row.addr - s.start;
    if row.undecodable then
      && row.addr == EndOf(insns, s.start + from) && 0 <= at < |s.data|
      && row.bytes == s.data[at..at + Min(skip, |s.data| - at)]
    else Insn(row.addr, row.bytes, row.text) in insns
  }

  ghost predicate IsRow(decode: Decoder, row: Row, s: Stretch, skip: nat) {
    exists from: nat :: FromDecoder(decode, row, s, skip, from)
  }

  ghost predicate AreRows(decode: Decoder, rows: seq<Row>, s: Stretch, skip: nat) {
    forall row {:trigger IsRow(decode, row, s, skip)} :: row in rows ==> IsRow(decode, row, s, skip)
  }

  /** Every row is one of some stretch. */
  ghost predicate AllRows(decode: Decoder, rows: seq<Row>, stretches: seq<Stretch>, skip: nat) {
    forall row :: row in rows ==> exists i :: 0 <= i < |stretches| && IsRow(decode, row, stretches[i], skip)
  }

  lemma {:induction false} InsnsAreRows(decode: Decoder, s: Stretch, from: nat, skip: nat)
    requires from <= |s.data|
    ensures AreRows(decode, InsnRowsAt(decode, s.data, s.start, from), s, skip)
  {
    var insns := Decoded(decode, s.data, s.start, from);
    forall row | row in RowsOf(insns, |insns|) ensures IsRow(decode, row, s, skip) {
      var k :| 0 <= k < |insns| && RowsOf(insns, |insns|)[k] == row;
      RowAt(insns, |insns|, k);
      assert insns[k] in insns;
      assert FromDecoder(decode, row, s, skip, from);
    }
  }

  lemma {:induction false} StopsAtEnd(decode: Decoder, s: Stretch, from: nat)
    requires Sound(decode) && from <= |s.data|
    ensures s.start + StopsAt(decode, s.data, s.start, from)
         == EndOf(Decoded(decode, s.data, s.start, from), s.start + from)
  {
    var insns, rest, addr := Decoded(decode, s.data, s.start, from), s.data[from..], s.start + from;
    assert Faithful(decode(rest, addr), rest, addr);
    EndIsLength(insns, rest, addr);
  }

  lemma {:induction false} EndIsLength(insns: seq<Insn>, data: seq<byte>, addr: int)
    requires Faithful(insns, data, addr)
    ensures EndOf(insns, addr) == addr + |InsnBytes(insns, |insns|)|
  {
  }

  lemma {:induction false} BadIsRow(decode: Decoder, s: Stretch, from: nat, skip: nat)
    requires Sound(decode) && from <= |s.data| && StopsAt(decode, s.data, s.start, from) < |s.data| && skip >= 1
    ensures IsRow(decode, BadRow(s.data, s.start, StopsAt(decode, s.data, s.start, from), skip), s, skip)
  {
    StopsAtEnd(decode, s, from);
    assert FromDecoder(decode, BadRow(s.data, s.start, StopsAt(decode, s.data, s.start, from), skip), s, skip, from);
  }

  lemma {:induction false} RowsJoin(decode: Decoder, x: seq<Row>, y: seq<Row>, s: Stretch, skip: nat)
    requires AreRows(decode, x, s, skip) && AreRows(decode, y, s, skip)
    ensures AreRows(decode, x + y, s, skip)
  {
  }

  /** Every row of a stretch's listing comes from the decoder. */
  lemma {:induction false} ListingIsRows(decode: Decoder, s: Stretch, offset: nat, skip: nat)
    requires Sound(decode) && offset <= |s.data| && skip >= 1
    ensures AreRows(decode, Listing(decode, s.data, s.start, offset, skip), s, skip)
    decreases |s.data| - offset, 1
  {
    if offset < |s.data| {
      InsnsAreRows(decode, s, offset, skip);
      AfterIsRows(decode, s, offset, StopsAt(decode, s.data, s.start, offset), skip);
      RowsJoin(decode, InsnRowsAt(decode, s.data, s.start, offset),
               AfterInsns(decode, s.data, s.start, StopsAt(decode, s.data, s.start, offset), skip), s, skip);
    }
  }

  lemma {:induction false} AfterIsRows(decode: Decoder, s: Stretch, from: nat, next: nat, skip: nat)
    requires Sound(decode) && from <= |s.data| && next == StopsAt(decode, s.data, s.start, from) && skip >= 1
    ensures AreRows(decode, AfterInsns(decode, s.data, s.start, next, skip), s, skip)
    decreases |s.data| - next, 0
  {
    if next < |s.data| {
      var bad := BadRow(s.data, s.start, next, skip);
      BadIsRow(decode, s, from, skip);
      ListingIsRows(decode, s, next + |bad.bytes|, skip);
      assert AreRows(decode, [bad], s, skip);
      RowsJoin(decode, [bad], Listing(decode, s.data, s.start, next + |bad.bytes|, skip), s, skip);
    }
  }

  lemma {:induction false} ListingAllIsRows(decode: Decoder, stretches: seq<Stretch>, n: nat, skip: nat)
    requires Sound(decode) && n <= |stretches| && skip >= 1
    ensures AllRows(decode, ListingAll(decode, stretches, n, skip), stretches, skip)
  {
    if n > 0 {
      ListingAllIsRows(decode, stretches, n - 1, skip);
      ListingIsRows(decode, stretches[n - 1], 0, skip);
      MoreRows(decode, ListingAll(decode, stretches, n - 1, skip),
               Listing(decode, stretches[n - 1].data, stretches[n - 1].start, 0, skip), stretches, n - 1, skip);
    }
  }

  lemma {:induction false} MoreRows(decode: Decoder, x: seq<Row>, y: seq<Row>, stretches: seq<Stretch>, i: nat,
                                    skip: nat)
    requires i < |stretches| && AllRows(decode, x, stretches, skip) && AreRows(decode, y, stretches[i], skip)
    ensures AllRows(decode, x + y, stretches, skip)
  {
    forall row | row in x + y ensures exists j :: 0 <= j < |stretches| && IsRow(decode, row, stretches[j], skip) {
      if row in y { assert IsRow(decode, row, stretches[i], skip); }
    }
  }

  lemma {:induction false} LastWithin(rows: seq<Row>, s: Stretch, from: nat, to: nat)
    requires Lists(rows, s.data, s.start, from, to) && rows != []
    ensures var mid := from + |Bytes(rows[..|rows| - 1])|;
            mid <= to && Lists(rows[..|rows| - 1], s.data, s.start, from, mid) && Within(rows[|rows| - 1], s)
  {
    var init, last := rows[..|rows| - 1], rows[|rows| - 1];
    var mid := from + |Bytes(init)|;
    SplitAt(Bytes(init), last.bytes);
    SliceSplit(s.data, from, mid, to);
  }

  lemma {:induction false} ListedWithin(rows: seq<Row>, s: Stretch, from: nat, to: nat)
    requires Lists(rows, s.data, s.start, from, to)
    ensures forall k :: 0 <= k < |rows| ==> Within(rows[k], s)
  {
    if rows != [] {
      LastWithin(rows, s, from, to);
      ListedWithin(rows[..|rows| - 1], s, from, from + |Bytes(rows[..|rows| - 1])|);
    }
  }

  lemma {:induction false} ListingAllBytes(decode: Decoder, stretches: seq<Stretch>, n: nat, skip: nat)
    requires Sound(decode) && n <= |stretches| && skip >= 1
    ensures Bytes(ListingAll(decode, stretches, n, skip)) == CapturedBytes(stretches, n)
  {
    if n > 0 {
      var s := stretches[n - 1];
      ListingAllBytes(decode, stretches, n - 1, skip);
      StretchBytes(decode, s, skip);
      JoinBytes(ListingAll(decode, stretches, n - 1, skip), Listing(decode, s.data, s.start, 0, skip),
                CapturedBytes(stretches, n - 1), s.data);
    }
  }

  lemma {:induction false} JoinBytes(x: seq<Row>, y: seq<Row>, xs: seq<byte>, ys: seq<byte>)
    requires Bytes(x) == xs && Bytes(y) == ys
    ensures Bytes(x + y) == xs + ys
  {
    BytesAppend(x, y);
  }

  lemma {:induction false} StretchBytes(decode: Decoder, s: Stretch, skip: nat)
    requires Sound(decode) && skip >= 1
    ensures Bytes(Listing(decode, s.data, s.start, 0, skip)) == s.data
  {
    ListingIsStretch(decode, s.data, s.start, 0, skip);
    SliceOfSuffix(s.data, 0, |s.data|);
    assert s.data[0..] == s.data;
    TakeAll(s.data);
  }

  lemma {:induction false} ListingAllWithin(decode: Decoder, stretches: seq<Stretch>, n: nat, skip: nat)
    requires Sound(decode) && n <= |stretches| && skip >= 1
    ensures AllWithin(ListingAll(decode, stretches, n, skip), stretches)
  {
    if n > 0 {
      var s := stretches[n - 1];
      ListingAllWithin(decode, stretches, n - 1, skip);
      ListingIsStretch(decode, s.data, s.start, 0, skip);
      ListedWithin(Listing(decode, s.data, s.start, 0, skip), s, 0, |s.data|);
    }
  }

  lemma {:induction false} SomeBytes(rows: seq<Row>)
    requires rows != [] && forall k :: 0 <= k < |rows| ==> rows[k].bytes != []
    ensures Bytes(rows) != []
  {
  }

  /** Whatever the decoder: the rows are at most the budget, their bytes are a prefix of the
      captured bytes, no row crosses a gap, and the output is truncated exactly when captured
      bytes were left undecoded. */
  lemma {:induction false} RowsArePrefix(decode: Decoder, stretches: seq<Stretch>, skip: nat, maxInsns: nat,
                                         rows: seq<Row>, truncated: bool)
    requires Sound(decode) && skip >= 1
    requires IsCut(rows, ListingAll(decode, stretches, |stretches|, skip), maxInsns, truncated)
    ensures |rows| <= maxInsns && AllWithin(rows, stretches) && AllRows(decode, rows, stretches, skip)
    ensures Bytes(rows) <= CapturedBytes(stretches, |stretches|)
    ensures truncated <==> |Bytes(rows)| < |CapturedBytes(stretches, |stretches|)|
  {
    var all := ListingAll(decode, stretches, |stretches|, skip);
    ListingAllBytes(decode, stretches, |stretches|, skip);
    ListingAllWithin(decode, stretches, |stretches|, skip);
    ListingAllIsRows(decode, stretches, |stretches|, skip);
    assert forall row :: row in rows ==> row in all;
    forall k | 0 <= k < |all| ensures all[k].bytes != [] {}
    CutBytes(rows, all);
  }

  /** The bytes of the first rows of a listing whose rows all have some. */
  lemma {:induction false} CutBytes(rows: seq<Row>, all: seq<Row>)
    requires rows <= all && forall k :: 0 <= k < |all| ==> all[k].bytes != []
    ensures Bytes(rows) <= Bytes(all)
    ensures |rows| < |all| <==> |Bytes(rows)| < |Bytes(all)|
  {
    var rest := all[|rows|..];
    assert all == rows + rest;
    BytesAppend(rows, rest);
    if rest != [] { SomeBytes(rest); }
  }

  // ---- gaps --------------------------------------------------------------------------------------------------

  /** Stretches in ascending order inside the window, none overlapping another. */
  ghost predicate InWindow(stretches: seq<Stretch>, address: int, length: nat) {
    && (forall i :: 0 <= i < |stretches| ==>
          address <= stretches[i].start && stretches[i].start + |stretches[i].data| <= address + length)
    && (forall i, j :: 0 <= i < j < |stretches| ==> stretches[i].start + |stretches[i].data| <= stretches[j].start)
  }

  function Spans(stretches: seq<Stretch>): (r: seq<Run<bool>>)
    ensures |r| == |stretches|
    ensures forall i :: 0 <= i < |r| ==> r[i] == Run(stretches[i].start, |stretches[i].data|, true)
  {
    seq(|stretches|, i requires 0 <= i < |stretches| => Run(stretches[i].start, |stretches[i].data|, true))
  }

  /** Each address below `end` from the window's start on is in one stretch or one gap, once. */
  ghost predicate TiledTo(spans: seq<Run<bool>>, gaps: seq<Run<bool>>, address: int, end: int) {
    && Positive(gaps)
    && forall a :: Count(spans, a, None) + Count(gaps, a, None) == if address <= a < end then 1 else 0
  }

  /** A gap from the cursor up to `to`, if there is any room. */
  function WithGap(gaps: seq<Run<bool>>, cursor: int, to: int): seq<Run<bool>> {
    if to > cursor then gaps + [Run(cursor, to - cursor, false)] else gaps
  }

  function CursorAt(stretches: seq<Stretch>, i: nat, address: int): int
    requires i <= |stretches|
  {
    if i == 0 then address else stretches[i - 1].start + |stretches[i - 1].data|
  }

  /** The gaps before the first `i` stretches. */
  ghost function GapsBefore(stretches: seq<Stretch>, i: nat, address: int): seq<Run<bool>>
    requires i <= |stretches|
  {
    if i == 0 then []
    else WithGap(GapsBefore(stretches, i - 1, address), CursorAt(stretches, i - 1, address), stretches[i - 1].start)
  }

  ghost function AllGaps(stretches: seq<Stretch>, address: int, end: int): seq<Run<bool>> {
    WithGap(GapsBefore(stretches, |stretches|, address), CursorAt(stretches, |stretches|, address), end)
  }

  /** The gaps of a window, found by a cursor that moves over the stretches. */
  method GapsOf(address: int, length: nat, stretches: seq<Stretch>) returns (gaps: seq<Run<bool>>)
    ensures gaps == AllGaps(stretches, address, address + length)
  {
    gaps := [];
    var cursor := address;
    for i := 0 to |stretches|
      invariant cursor == CursorAt(stretches, i, address) && gaps == GapsBefore(stretches, i, address)
    {
      if stretches[i].start > cursor {
        gaps := gaps + [Run(cursor, stretches[i].start - cursor, false)];
      }
      cursor := stretches[i].start + |stretches[i].data|;
    }
    if address + length > cursor {
      gaps := gaps + [Run(cursor, address + length - cursor, false)];
    }
  }

  lemma {:induction false} CursorFits(stretches: seq<Stretch>, i: nat, address: int, length: nat)
    requires i <= |stretches| && InWindow(stretches, address, length)
    ensures address <= CursorAt(stretches, i, address) <= address + length
    ensures i < |stretches| ==> CursorAt(stretches, i, address) <= stretches[i].start
  {
  }

  lemma {:induction false} GapsTileTo(stretches: seq<Stretch>, i: nat, address: int, length: nat)
    requires i <= |stretches| && InWindow(stretches, address, length)
    ensures TiledTo(Spans(stretches[..i]), GapsBefore(stretches, i, address), address, CursorAt(stretches, i, address))
  {
    if i > 0 {
      var s := stretches[i - 1];
      GapsTileTo(stretches, i - 1, address, length);
      CursorFits(stretches, i - 1, address, length);
      TileStep(Spans(stretches[..i - 1]), GapsBefore(stretches, i - 1, address), address,
               CursorAt(stretches, i - 1, address), s);
      assert Spans(stretches[..i]) == Spans(stretches[..i - 1]) + [Run(s.start, |s.data|, true)];
    }
  }

  lemma {:induction false} TileStep(spans: seq<Run<bool>>, gaps: seq<Run<bool>>, address: int, cursor: int, s: Stretch)
    requires TiledTo(spans, gaps, address, cursor) && address <= cursor <= s.start
    ensures TiledTo(spans + [Run(s.start, |s.data|, true)], WithGap(gaps, cursor, s.start), address, s.start + |s.data|)
  {
    GapTiles(spans, gaps, address, cursor, s.start);
    StretchTiles(spans, WithGap(gaps, cursor, s.start), address, s);
  }

  /** Gaps and captured stretches tile the window: each address of it is in one of them, once. */
  lemma {:induction false} GapsTileWindow(stretches: seq<Stretch>, address: int, length: nat)
    requires InWindow(stretches, address, length)
    ensures TiledTo(Spans(stretches), AllGaps(stretches, address, address + length), address, address + length)
  {
    var n := |stretches|;
    TakeAll(stretches);
    GapsTileTo(stretches, n, address, length);
    CursorFits(stretches, n, address, length);
    GapTiles(Spans(stretches), GapsBefore(stretches, n, address), address, CursorAt(stretches, n, address),
             address + length);
  }

  lemma {:induction false} GapsStayBelow(stretches: seq<Stretch>, i: nat, address: int, length: nat)
    requires i <= |stretches| && InWindow(stretches, address, length)
    requires forall j :: 0 <= j < |stretches| ==> stretches[j].data != []
    ensures GapsBelow(GapsBefore(stretches, i, address), CursorAt(stretches, i, address))
  {
    if i > 0 {
      GapsStayBelow(stretches, i - 1, address, length);
      CursorFits(stretches, i - 1, address, length);
      GapIsMaximal(GapsBefore(stretches, i - 1, address), CursorAt(stretches, i - 1, address), stretches[i - 1].start);
    }
  }

  /** When no stretch is empty the gaps are the maximal ones. */
  lemma {:induction false} GapsAreMaximal(stretches: seq<Stretch>, address: int, length: nat)
    requires InWindow(stretches, address, length) && forall j :: 0 <= j < |stretches| ==> stretches[j].data != []
    ensures Canonical(AllGaps(stretches, address, address + length))
  {
    var n := |stretches|;
    GapsStayBelow(stretches, n, address, length);
    CursorFits(stretches, n, address, length);
    GapIsMaximal(GapsBefore(stretches, n, address), CursorAt(stretches, n, address), address + length);
  }

  /** Canonical gaps that all end before the cursor. */
  ghost predicate GapsBelow(gaps: seq<Run<bool>>, cursor: int) {
    Canonical(gaps) && (gaps != [] ==> gaps[|gaps| - 1].End() < cursor)
  }

  lemma {:induction false} GapIsMaximal(gaps: seq<Run<bool>>, cursor: int, to: int)
    ensures cursor <= to && GapsBelow(gaps, cursor) ==> GapsBelow(WithGap(gaps, cursor, to), to + 1)
  {
    if cursor < to && GapsBelow(gaps, cursor) {
      forall i | 0 <= i < |gaps| ensures gaps[i].End() < cursor {
        if i < |gaps| - 1 { assert gaps[i].End() <= gaps[|gaps| - 1].start; }
      }
    }
  }

  lemma {:induction false} GapTiles(spans: seq<Run<bool>>, gaps: seq<Run<bool>>, address: int, cursor: int, to: int)
    requires TiledTo(spans, gaps, address, cursor) && address <= cursor <= to
    ensures TiledTo(spans, WithGap(gaps, cursor, to), address, to)
  {
    if cursor < to { OneMoreGap(spans, gaps, address, cursor, to); }
  }

  lemma {:induction false} OneMoreGap(spans: seq<Run<bool>>, gaps: seq<Run<bool>>, address: int, cursor: int, to: int)
    requires TiledTo(spans, gaps, address, cursor) && address <= cursor < to
    ensures TiledTo(spans, gaps + [Run(cursor, to - cursor, false)], address, to)
  {
    var next := gaps + [Run(cursor, to - cursor, false)];
    forall a ensures Count(spans, a, None) + Count(next, a, None) == if address <= a < to then 1 else 0 {
      assert Count(spans, a, None) + Count(gaps, a, None) == if address <= a < cursor then 1 else 0;
      SumSnoc(gaps, Run(cursor, to - cursor, false), Hits(a, None));
    }
  }

  lemma {:induction false} StretchTiles(spans: seq<Run<bool>>, gaps: seq<Run<bool>>, address: int, s: Stretch)
    requires TiledTo(spans, gaps, address, s.start) && address <= s.start
    ensures TiledTo(spans + [Run(s.start, |s.data|, true)], gaps, address, s.start + |s.data|)
  {
    var next, end := spans + [Run(s.start, |s.data|, true)], s.start + |s.data|;
    forall a ensures Count(next, a, None) + Count(gaps, a, None) == if address <= a < end then 1 else 0 {
      assert Count(spans, a, None) + Count(gaps, a, None) == if address <= a < s.start then 1 else 0;
      SumSnoc(spans, Run(s.start, |s.data|, true), Hits(a, None));
    }
  }
}
