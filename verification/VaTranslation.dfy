/** Virtual addresses and offsets into the captured stream: the run table, translation in both
    directions, and the sorted index over the table (core/vas_runs.py, app/tools_consensus.py). */
module VaTranslation {
  import opened Sequences
  import opened ScanPlan

  // ---- the run table ------------------------------------------------------------------------------

  /** Positive runs laid end to end from offset 0 in table order. */
  ghost predicate Stacked(table: seq<Captured>) {
    forall i :: 0 <= i < |table| ==> table[i].length > 0 && table[i].vas == Total(table[..i])
  }

  function Total(table: seq<Captured>): int {
    if table == [] then 0 else Total(table[..|table| - 1]) + table[|table| - 1].length
  }

  /** The `(va, length)` of each range that holds bytes; a source lists `(va, length)` pairs or
      `(start, end)` pairs. */
  function Ranges(ranges: seq<(int, int)>, lengths: bool, n: nat): seq<(int, int)>
    requires n <= |ranges|
  {
    if n == 0 then []
    else
      var r := ranges[n - 1];
      var length := if lengths then r.1 else r.1 - r.0;
      Ranges(ranges, lengths, n - 1) + if length <= 0 then [] else [(r.0, length)]
  }

  ghost predicate TableOf(table: seq<Captured>, ranges: seq<(int, int)>) {
    |table| == |ranges| && forall i :: 0 <= i < |table| ==> (table[i].va, table[i].length) == ranges[i]
  }

  /** Which ranges hold bytes. */
  ghost function NonEmptyMarks(ranges: seq<(int, int)>, lengths: bool): (r: seq<bool>)
    ensures |r| == |ranges|
    ensures forall i :: 0 <= i < |r| ==> r[i] == if lengths then ranges[i].1 > 0 else ranges[i].0 < ranges[i].1
  {
    seq(|ranges|, i requires 0 <= i < |ranges| => if lengths then ranges[i].1 > 0 else ranges[i].0 < ranges[i].1)
  }

  /** The run at `va` of some length is the range, of which either the length or the end is given. */
  ghost predicate IsRange(run: (int, int), r: (int, int), lengths: bool) {
    run.0 == r.0 && run.0 + run.1 == (if lengths then r.0 + r.1 else r.1)
  }

  ghost predicate AreRanges(runs: seq<(int, int)>, ranges: seq<(int, int)>, lengths: bool, places: seq<nat>) {
    && |runs| == |places|
    && forall k :: 0 <= k < |runs| ==> places[k] < |ranges| && IsRange(runs[k], ranges[places[k]], lengths)
  }

  /** The table lists, in order, the ranges that hold bytes, each with its own addresses. */
  ghost predicate ListsRanges(table: seq<Captured>, ranges: seq<(int, int)>, lengths: bool) {
    exists runs, places :: TableOf(table, runs) && AreRanges(runs, ranges, lengths, places)
                           && Places(NonEmptyMarks(ranges, lengths), |ranges|, places)
  }

  lemma {:induction false} OneMoreRange(runs: seq<(int, int)>, ranges: seq<(int, int)>, lengths: bool, places: seq<nat>,
                                        i: nat, run: (int, int))
    requires AreRanges(runs, ranges, lengths, places) && i < |ranges| && IsRange(run, ranges[i], lengths)
    ensures AreRanges(runs + [run], ranges, lengths, places + [i])
  {
    var more, next := runs + [run], places + [i];
    forall k | 0 <= k < |more| ensures next[k] < |ranges| && IsRange(more[k], ranges[next[k]], lengths) {
      if k < |runs| { assert next[k] == places[k] && more[k] == runs[k]; }
    }
  }

  lemma {:induction false} RangePlaces(ranges: seq<(int, int)>, lengths: bool, n: nat) returns (places: seq<nat>)
    requires n <= |ranges|
    ensures AreRanges(Ranges(ranges, lengths, n), ranges, lengths, places)
    ensures Places(NonEmptyMarks(ranges, lengths), n, places)
  {
    if n == 0 {
      places := [];
    } else {
      places := RangePlaces(ranges, lengths, n - 1);
      var before, r := Ranges(ranges, lengths, n - 1), ranges[n - 1];
      var length := if lengths then r.1 else r.1 - r.0;
      if length > 0 {
        PlaceTaken(NonEmptyMarks(ranges, lengths), n, places);
        OneMoreRange(before, ranges, lengths, places, n - 1, (r.0, length));
        places := places + [n - 1];
      } else {
        PlaceSkipped(NonEmptyMarks(ranges, lengths), n, places);
        AppendNothing(before);
      }
    }
  }

  lemma {:induction false} TableListsRanges(table: seq<Captured>, ranges: seq<(int, int)>, lengths: bool)
    requires TableOf(table, Ranges(ranges, lengths, |ranges|))
    ensures ListsRanges(table, ranges, lengths)
  {
    var places := RangePlaces(ranges, lengths, |ranges|);
  }

  /** The source's run table: its non-empty ranges in order, each with its own addresses, at the offset
      where the ones before it end. */
  method VasRuns(ranges: seq<(int, int)>, lengths: bool) returns (table: seq<Captured>)
    ensures Stacked(table) && ListsRanges(table, ranges, lengths)
  {
    table := [];
    var flat := 0;
    for i := 0 to |ranges|
      invariant Stacked(table) && flat == Total(table)
      invariant TableOf(table, Ranges(ranges, lengths, i))
    {
      var run := if lengths then ranges[i].1 else ranges[i].1 - ranges[i].0;
      if run <= 0 {
        AppendNothing(Ranges(ranges, lengths, i));
      } else {
        StackedGrows(table, ranges[i].0, run);
        table := table + [Captured(ranges[i].0, run, flat)];
        flat := flat + run;
      }
    }
    TableListsRanges(table, ranges, lengths);
  }

  lemma {:induction false} StackedGrows(table: seq<Captured>, va: int, length: int)
    requires Stacked(table) && length > 0
    ensures var next := table + [Captured(va, length, Total(table))];
            Stacked(next) && Total(next) == Total(table) + length
  {
    var next := table + [Captured(va, length, Total(table))];
    assert next[..|table|] == table;
    forall i | 0 <= i < |table| ensures next[..i] == table[..i] {}
  }

  ghost predicate AllPositive(table: seq<Captured>) {
    forall i :: 0 <= i < |table| ==> table[i].length > 0
  }

  lemma {:induction false} TotalNext(table: seq<Captured>, n: nat)
    requires n < |table|
    ensures Total(table[..n + 1]) == Total(table[..n]) + table[n].length
  {
    assert table[..n + 1][..n] == table[..n];
  }

  lemma {:induction false} TotalsGrow(table: seq<Captured>, i: nat, j: nat)
    requires AllPositive(table) && i <= j <= |table|
    ensures Total(table[..i]) <= Total(table[..j])
    ensures i < j ==> Total(table[..i]) + table[i].length <= Total(table[..j])
  {
    if i < j {
      TotalsGrow(table, i, j - 1);
      TotalNext(table, j - 1);
    }
  }

  lemma {:induction false} TotalMonotone(table: seq<Captured>, i: nat, j: nat)
    requires Stacked(table) && i <= j <= |table|
    ensures 0 <= Total(table[..i]) <= Total(table[..j])
    ensures i < j ==> Total(table[..i]) + table[i].length <= Total(table[..j])
  {
    TotalsGrow(table, 0, i);
    TotalsGrow(table, i, j);
    assert table[..0] == [];
  }

  // ---- what the table relates -----------------------------------------------------------------------

  predicate AtVa(c: Captured, va: int) { c.va <= va < c.va + c.length }

  predicate AtVas(c: Captured, offset: int) { c.vas <= offset < c.vas + c.length }

  /** Some run holds address `va` at stream offset `offset`. */
  ghost predicate Maps(table: seq<Captured>, va: int, offset: int) {
    exists i :: 0 <= i < |table| && AtVa(table[i], va) && offset - table[i].vas == va - table[i].va
  }

  ghost predicate VaDisjoint(table: seq<Captured>) {
    forall i, j, va :: 0 <= i < j < |table| && AtVa(table[i], va) ==> !AtVa(table[j], va)
  }

  ghost predicate VasDisjoint(table: seq<Captured>) {
    forall i, j, o :: 0 <= i < j < |table| && AtVas(table[i], o) ==> !AtVas(table[j], o)
  }

  /** Laying runs end to end never puts two bytes at one offset. */
  lemma {:induction false} StackedIsDisjoint(table: seq<Captured>)
    requires Stacked(table)
    ensures VasDisjoint(table)
  {
    forall i, j, o | 0 <= i < j < |table| && AtVas(table[i], o) ensures !AtVas(table[j], o) {
      TotalMonotone(table, i, j);
    }
  }

  /** The runs fill the stream: every offset below the captured total is some run's. */
  lemma {:induction false} StackedIsDense(table: seq<Captured>, offset: int)
    requires Stacked(table)
    ensures 0 <= offset < Total(table) <==> exists i :: 0 <= i < |table| && AtVas(table[i], offset)
  {
    TakeAll(table);
    if 0 <= offset < Total(table) {
      Filled(table, |table|, offset);
    }
    forall i | 0 <= i < |table| && AtVas(table[i], offset) ensures 0 <= offset < Total(table) {
      TotalMonotone(table, i, |table|);
    }
  }

  lemma {:induction false} Filled(table: seq<Captured>, n: nat, offset: int)
    requires Stacked(table) && n <= |table| && 0 <= offset < Total(table[..n])
    ensures exists i :: 0 <= i < n && AtVas(table[i], offset)
  {
    assert n > 0 && table[..n][..n - 1] == table[..n - 1];
    if offset < Total(table[..n - 1]) {
      Filled(table, n - 1, offset);
    } else {
      assert AtVas(table[n - 1], offset);
    }
  }

  // ---- translation ------------------------------------------------------------------------------------

  datatype View = VaView | VasView | RawView

  /** Exactly one of an address and an offset is translated into the other. */
  datatype Query = Va(va: int) | Offset(offset: int)

  /** The offset the first of the first `n` runs that holds `va` gives it. */
  function ToVas(table: seq<Captured>, n: nat, va: int): Option<int>
    requires n <= |table|
  {
    if n == 0 then None
    else if ToVas(table, n - 1, va).Some? then ToVas(table, n - 1, va)
    else if AtVa(table[n - 1], va) then Some(table[n - 1].vas + (va - table[n - 1].va))
    else None
  }

  function ToVa(table: seq<Captured>, n: nat, offset: int): Option<int>
    requires n <= |table|
  {
    if n == 0 then None
    else if ToVa(table, n - 1, offset).Some? then ToVa(table, n - 1, offset)
    else if AtVas(table[n - 1], offset) then Some(table[n - 1].va + (offset - table[n - 1].vas))
    else None
  }

  lemma {:induction false} ToVasKept(table: seq<Captured>, m: nat, n: nat, va: int)
    requires m <= n <= |table| && ToVas(table, m, va).Some?
    ensures ToVas(table, n, va) == ToVas(table, m, va)
    decreases n - m
  {
    if m < n { ToVasKept(table, m, n - 1, va); }
  }

  lemma {:induction false} ToVaKept(table: seq<Captured>, m: nat, n: nat, offset: int)
    requires m <= n <= |table| && ToVa(table, m, offset).Some?
    ensures ToVa(table, n, offset) == ToVa(table, m, offset)
    decreases n - m
  {
    if m < n { ToVaKept(table, m, n - 1, offset); }
  }

  /** What translating means: nothing for the container's raw view or an unknown span, a shift by
      the span's start for the address view, a table lookup for the captured stream. */
  function Translation(view: View, span: Option<int>, table: seq<Captured>, q: Query): Option<int> {
    match view
    case RawView => None
    case VaView =>
      if span.None? then None
      else if q.Offset? then Some(span.value + q.offset)
      else if q.va >= span.value then Some(q.va - span.value)
      else None
    case VasView => if q.Va? then ToVas(table, |table|, q.va) else ToVa(table, |table|, q.offset)
  }

  method TranslateVa(view: View, span: Option<int>, table: seq<Captured>, q: Query) returns (r: Option<int>)
    ensures r == Translation(view, span, table, q)
  {
    if view.VaView? {
      if span.None? { return None; }
      match q {
        case Va(va) =>
          var out := va - span.value;
          return if out >= 0 then Some(out) else None;
        case Offset(offset) => return Some(span.value + offset);
      }
    }
    if view.VasView? {
      match q {
        case Va(va) =>
          for i := 0 to |table|
            invariant ToVas(table, i, va).None?
          {
            if table[i].va <= va < table[i].va + table[i].length {
              ToVasKept(table, i + 1, |table|, va);
              return Some(table[i].vas + (va - table[i].va));
            }
          }
          return None;
        case Offset(offset) =>
          for i := 0 to |table|
            invariant ToVa(table, i, offset).None?
          {
            if table[i].vas <= offset < table[i].vas + table[i].length {
              ToVaKept(table, i + 1, |table|, offset);
              return Some(table[i].va + (offset - table[i].vas));
            }
          }
          return None;
      }
    }
    return None;
  }

  lemma {:induction false} ToVasMeans(table: seq<Captured>, n: nat, va: int)
    requires n <= |table|
    ensures match ToVas(table, n, va)
            case Some(o) => Maps(table[..n], va, o)
            case None => forall i :: 0 <= i < n ==> !AtVa(table[i], va)
  {
    if n > 0 {
      ToVasMeans(table, n - 1, va);
      if ToVas(table, n - 1, va).Some? {
        var o := ToVas(table, n - 1, va).value;
        var i :| 0 <= i < n - 1 && AtVa(table[..n - 1][i], va)
                 && o - table[..n - 1][i].vas == va - table[..n - 1][i].va;
        assert table[..n][i] == table[i];
      } else if AtVa(table[n - 1], va) {
        assert table[..n][n - 1] == table[n - 1];
      }
    }
  }

  lemma {:induction false} ToVaMeans(table: seq<Captured>, n: nat, offset: int)
    requires n <= |table|
    ensures match ToVa(table, n, offset)
            case Some(va) => Maps(table[..n], va, offset)
            case None => forall i :: 0 <= i < n ==> !AtVas(table[i], offset)
  {
    if n > 0 {
      ToVaMeans(table, n - 1, offset);
      if ToVa(table, n - 1, offset).Some? {
        var va := ToVa(table, n - 1, offset).value;
        var i :| 0 <= i < n - 1 && AtVa(table[..n - 1][i], va)
                 && offset - table[..n - 1][i].vas == va - table[..n - 1][i].va;
        assert table[..n][i] == table[i];
      } else if AtVas(table[n - 1], offset) {
        assert table[..n][n - 1] == table[n - 1];
      }
    }
  }

  /** On runs disjoint in addresses an address translates to exactly the offset that holds it. */
  lemma {:induction false} ToVasExact(table: seq<Captured>, va: int, offset: int)
    requires VaDisjoint(table)
    ensures ToVas(table, |table|, va) == Some(offset) <==> Maps(table, va, offset)
  {
    TakeAll(table);
    ToVasMeans(table, |table|, va);
    if Maps(table, va, offset) {
      var i :| 0 <= i < |table| && AtVa(table[i], va) && offset - table[i].vas == va - table[i].va;
      var o := ToVas(table, |table|, va).value;
      var j :| 0 <= j < |table| && AtVa(table[j], va) && o - table[j].vas == va - table[j].va;
      assert i == j;
    }
  }

  lemma {:induction false} ToVaExact(table: seq<Captured>, va: int, offset: int)
    requires VasDisjoint(table)
    ensures ToVa(table, |table|, offset) == Some(va) <==> Maps(table, va, offset)
  {
    TakeAll(table);
    ToVaMeans(table, |table|, offset);
    if Maps(table, va, offset) {
      var i :| 0 <= i < |table| && AtVa(table[i], va) && offset - table[i].vas == va - table[i].va;
      assert AtVas(table[i], offset);
      var w := ToVa(table, |table|, offset).value;
      var j :| 0 <= j < |table| && AtVa(table[j], w) && offset - table[j].vas == w - table[j].va;
      assert AtVas(table[j], offset);
      assert i == j;
    }
  }

  /** The two directions are inverse on captured addresses and undefined elsewhere. */
  lemma {:induction false} Inverse(table: seq<Captured>, span: Option<int>, va: int, offset: int)
    requires VaDisjoint(table) && VasDisjoint(table)
    ensures Translation(VasView, span, table, Va(va)) == Some(offset)
       <==> Translation(VasView, span, table, Offset(offset)) == Some(va)
    ensures Translation(VasView, span, table, Va(va)).None? <==> forall c :: c in table ==> !AtVa(c, va)
    ensures Translation(VasView, span, table, Offset(offset)).None? <==> forall c :: c in table ==> !AtVas(c, offset)
  {
    ToVasExact(table, va, offset);
    ToVaExact(table, va, offset);
    ToVasMeans(table, |table|, va);
    ToVaMeans(table, |table|, offset);
    TakeAll(table);
    if i :| 0 <= i < |table| && AtVas(table[i], offset) {
      assert table[i] in table;
    }
  }

  /** For a source's own table the stream round-trips exactly when no address is captured twice. */
  lemma {:induction false} StreamRoundTrips(table: seq<Captured>)
    requires Stacked(table)
    ensures VaDisjoint(table) <==> forall o :: 0 <= o < Total(table) ==> RoundTrips(table, o)
  {
    StackedIsDisjoint(table);
    if VaDisjoint(table) {
      forall o | 0 <= o < Total(table) ensures RoundTrips(table, o) {
        StackedIsDense(table, o);
        ToVaMeans(table, |table|, o);
        var va := ToVa(table, |table|, o).value;
        ToVaExact(table, va, o);
        ToVasExact(table, va, o);
      }
    } else {
      var i, j, va :| 0 <= i < j < |table| && AtVa(table[i], va) && AtVa(table[j], va);
      var x, y := table[i].vas + (va - table[i].va), table[j].vas + (va - table[j].va);
      assert AtVas(table[i], x) && AtVas(table[j], y);
      assert Maps(table, va, x) && Maps(table, va, y);
      StackedIsDense(table, x);
      StackedIsDense(table, y);
      ToVaExact(table, va, x);
      ToVaExact(table, va, y);
      assert RoundTrips(table, x) ==> !RoundTrips(table, y);
    }
  }

  ghost predicate RoundTrips(table: seq<Captured>, o: int) {
    var va := ToVa(table, |table|, o);
    va.Some? && ToVas(table, |table|, va.value) == Some(o)
  }

  /** The byte at stream offset `o`, named in the address view and brought back to the stream. */
  ghost predicate Carried(span: int, table: seq<Captured>, o: int) {
    var va := Translation(VasView, None, table, Offset(o));
    va.Some?
    && var viewed := Translation(VaView, Some(span), table, Va(va.value));
       viewed.Some?
       && var back := Translation(VaView, Some(span), table, Offset(viewed.value));
          back.Some? && Translation(VasView, None, table, Va(back.value)) == Some(o)
  }

  /** An offset of the address view comes back from its address. */
  ghost predicate Returns(span: int, table: seq<Captured>, o: int) {
    var va := Translation(VaView, Some(span), table, Offset(o));
    va.Some? && Translation(VaView, Some(span), table, Va(va.value)) == Some(o)
  }

  lemma {:induction false} CarriedMeans(span: int, table: seq<Captured>, o: int)
    ensures Carried(span, table, o) <==> RoundTrips(table, o) && ToVa(table, |table|, o).value >= span
  {
  }

  /** The stream holds a run's first address at the run's own offset. */
  lemma {:induction false} StartOf(table: seq<Captured>, c: Captured)
    requires Stacked(table) && c in table
    ensures 0 <= c.vas < Total(table) && ToVa(table, |table|, c.vas) == Some(c.va)
  {
    StackedIsDisjoint(table);
    var i :| 0 <= i < |table| && table[i] == c;
    assert AtVas(c, c.vas) && AtVa(c, c.va);
    StackedIsDense(table, c.vas);
    ToVaExact(table, c.va, c.vas);
  }

  lemma {:induction false} AddressIsHeld(table: seq<Captured>, o: int)
    requires ToVa(table, |table|, o).Some?
    ensures exists c :: c in table && AtVa(c, ToVa(table, |table|, o).value)
  {
    var va := ToVa(table, |table|, o).value;
    ToVaMeans(table, |table|, o);
    TakeAll(table);
    var i :| 0 <= i < |table| && AtVa(table[i], va) && o - table[i].vas == va - table[i].va;
    assert table[i] in table;
  }

  lemma {:induction false} ReturnsExactly(span: int, table: seq<Captured>, o: int)
    ensures Translation(VaView, Some(span), table, Offset(o)).Some? && (Returns(span, table, o) <==> o >= 0)
  {
  }

  lemma {:induction false} CarriedStarts(span: int, table: seq<Captured>, c: Captured)
    requires Stacked(table) && c in table && forall o :: 0 <= o < Total(table) ==> Carried(span, table, o)
    ensures span <= c.va
  {
    StartOf(table, c);
    assert Carried(span, table, c.vas);
    CarriedMeans(span, table, c.vas);
  }

  lemma {:induction false} NotCarried(span: int, table: seq<Captured>, o: int)
    requires RoundTrips(table, o) && !Carried(span, table, o)
    ensures exists c :: c in table && c.va < span
  {
    CarriedMeans(span, table, o);
    AddressIsHeld(table, o);
  }

  /** Every captured byte passes from the stream to the address view and back unchanged if and only if no
      address is captured twice and no run starts below the span. An offset of the address view itself
      returns exactly when it is not negative: a negative one is answered with an address below the span
      instead of a refusal. */
  lemma {:induction false} ViewsRoundTrip(span: int, table: seq<Captured>)
    requires Stacked(table)
    ensures (forall o :: 0 <= o < Total(table) ==> Carried(span, table, o))
       <==> VaDisjoint(table) && forall c :: c in table ==> span <= c.va
    ensures forall o {:trigger Returns(span, table, o)} ::
              Translation(VaView, Some(span), table, Offset(o)).Some? && (Returns(span, table, o) <==> o >= 0)
  {
    forall o {
      ReturnsExactly(span, table, o);
    }
    StreamRoundTrips(table);
    if forall o :: 0 <= o < Total(table) ==> Carried(span, table, o) {
      forall o | 0 <= o < Total(table) ensures RoundTrips(table, o) {
        assert Carried(span, table, o);
        CarriedMeans(span, table, o);
      }
      forall c | c in table ensures span <= c.va { CarriedStarts(span, table, c); }
    } else if VaDisjoint(table) {
      var o :| 0 <= o < Total(table) && !Carried(span, table, o);
      NotCarried(span, table, o);
    }
  }

  // ---- the sorted index --------------------------------------------------------------------------------

  function Starts(table: seq<Captured>): (r: seq<int>)
    ensures |r| == |table| && forall i :: 0 <= i < |r| ==> r[i] == table[i].va
  {
    seq(|table|, i requires 0 <= i < |table| => table[i].va)
  }

  /** Lookup by bisection in the table sorted by address; -1 for an address no run holds. */
  function Bisected(table: seq<Captured>, va: int): int {
    Lookup(Sort(table, CapturedLe), va)
  }

  function Lookup(ordered: seq<Captured>, va: int): int {
    var i := BisectRight(Starts(ordered), va) - 1;
    if i < 0 || va >= ordered[i].va + ordered[i].length then -1
    else ordered[i].vas + (va - ordered[i].va)
  }

  /** Lookup by walking the table, with the same -1. */
  function Walked(table: seq<Captured>, va: int): int {
    match ToVas(table, |table|, va)
    case Some(o) => o
    case None => -1
  }

  lemma {:induction false} OccursTwice(s: seq<Captured>, i: nat, j: nat)
    requires i < j < |s| && s[i] == s[j]
    ensures multiset(s)[s[i]] >= 2
  {
    assert s == s[..i] + [s[i]] + s[i + 1..j] + [s[j]] + s[j + 1..];
  }

  lemma {:induction false} FoundTwice(s: seq<Captured>, c: Captured) returns (k: nat, m: nat)
    requires multiset(s)[c] >= 2
    ensures k < m < |s| && s[k] == s[m] == c
  {
    k :| 0 <= k < |s| && s[k] == c;
    assert s == s[..k] + [c] + s[k + 1..];
    var rest := s[..k] + s[k + 1..];
    assert multiset(s) == multiset(rest) + multiset{c};
    assert c in rest;
    var l :| 0 <= l < |rest| && rest[l] == c;
    m := if l < k then l else l + 1;
    if m < k { k, m := m, k; }
  }

  /** Sorted by address, runs disjoint in addresses follow one another. */
  lemma {:induction false} SortedDisjoint(table: seq<Captured>, ordered: seq<Captured>, i: nat, j: nat)
    requires VaDisjoint(table) && (forall c :: c in table ==> c.length > 0)
    requires multiset(ordered) == multiset(table) && i < j < |ordered| && ordered[i].va <= ordered[j].va
    ensures ordered[i].va + ordered[i].length <= ordered[j].va
  {
    SameElements(ordered, table);
    var x, y := ordered[i], ordered[j];
    assert x in table && y in table;
    var k: nat, l: nat;
    if x == y {
      OccursTwice(ordered, i, j);
      k, l := FoundTwice(table, x);
    } else {
      k :| k < |table| && table[k] == x;
      l :| l < |table| && table[l] == y;
    }
    assert AtVa(y, y.va);
    assert k < l || l < k;
  }

  ghost predicate Apart(ordered: seq<Captured>) {
    && (forall i :: 0 <= i < |ordered| ==> ordered[i].length > 0)
    && forall i, j :: 0 <= i < j < |ordered| ==> ordered[i].va + ordered[i].length <= ordered[j].va
  }

  lemma {:induction false} SortedIsApart(table: seq<Captured>)
    requires VaDisjoint(table) && (forall c :: c in table ==> c.length > 0)
    ensures Apart(Sort(table, CapturedLe)) && forall c :: c in Sort(table, CapturedLe) <==> c in table
  {
    var ordered := Sort(table, CapturedLe);
    SortSorts(table, CapturedLe);
    forall i, j | 0 <= i < j < |ordered| ensures ordered[i].va + ordered[i].length <= ordered[j].va {
      assert CapturedLe(ordered[i], ordered[j]);
      SortedDisjoint(table, ordered, i, j);
    }
  }

  /** The index finds a run for `va` exactly when one holds it. */
  lemma {:induction false} IndexFinds(ordered: seq<Captured>, va: int)
    requires Apart(ordered)
    ensures var i := BisectRight(Starts(ordered), va) - 1;
            if i >= 0 && va < ordered[i].va + ordered[i].length then AtVa(ordered[i], va)
            else forall k :: 0 <= k < |ordered| ==> !AtVa(ordered[k], va)
  {
    var starts := Starts(ordered);
    assert Ascending(starts);
    var i := BisectRight(starts, va) - 1;
    forall k | 0 <= k < |ordered| ensures k <= i <==> ordered[k].va <= va {
      assert starts[k] == ordered[k].va;
    }
  }

  /** The index answers every address as the walk through the table does. */
  lemma {:induction false} IndexIsWalk(table: seq<Captured>, va: int)
    requires VaDisjoint(table) && (forall c :: c in table ==> c.length > 0)
    ensures Bisected(table, va) == Walked(table, va)
  {
    var ordered := Sort(table, CapturedLe);
    var i := BisectRight(Starts(ordered), va) - 1;
    SortedIsApart(table);
    IndexFinds(ordered, va);
    if i >= 0 && va < ordered[i].va + ordered[i].length {
      HolderAnswers(table, ordered[i], va);
    } else {
      forall c | c in table ensures !AtVa(c, va) { assert c in ordered; }
      WalkMisses(table, va);
    }
  }

  lemma {:induction false} HolderAnswers(table: seq<Captured>, c: Captured, va: int)
    requires VaDisjoint(table) && c in table && AtVa(c, va)
    ensures Walked(table, va) == c.vas + (va - c.va)
  {
    var k :| 0 <= k < |table| && table[k] == c;
    ToVasExact(table, va, c.vas + (va - c.va));
  }

  // ---- when the index and the walk agree -----------------------------------------------------------------

  /** The addresses that bisection looks up in run `k`. */
  predicate InZone(ordered: seq<Captured>, k: nat, va: int)
    requires k < |ordered|
  {
    ordered[k].va <= va && (k + 1 < |ordered| ==> va < ordered[k + 1].va)
  }

  /** The run holds an address that bisection looks up in run `k`. */
  predicate Meets(ordered: seq<Captured>, k: nat, c: Captured)
    requires k < |ordered|
  {
    && ordered[k].va < c.va + c.length
    && (k + 1 < |ordered| ==> c.va < ordered[k + 1].va && ordered[k].va < ordered[k + 1].va)
  }

  /** What the run holds of those addresses ends no later than run `k` does. */
  predicate EndsWithin(ordered: seq<Captured>, k: nat, c: Captured)
    requires k < |ordered|
  {
    var end := ordered[k].va + ordered[k].length;
    c.va + c.length <= end || (k + 1 < |ordered| && ordered[k + 1].va <= end)
  }

  /** Where another run meets the addresses looked up in run `k`, run `k` stands before it in the table
      and holds all of them that the other one holds. */
  predicate Covered(ordered: seq<Captured>, k: nat, c: Captured)
    requires k < |ordered|
  {
    c != ordered[k] && Meets(ordered, k, c) ==> ordered[k].vas < c.vas && EndsWithin(ordered, k, c)
  }

  ghost predicate IndexSafe(table: seq<Captured>, ordered: seq<Captured>) {
    forall k, c {:trigger Covered(ordered, k, c)} ::
      0 <= k < |ordered| && c in table ==> Covered(ordered, k, c)
  }

  ghost predicate SortedOf(ordered: seq<Captured>, table: seq<Captured>) {
    && (forall c :: c in ordered <==> c in table)
    && (forall i, j :: 0 <= i < j < |ordered| ==> ordered[i].va <= ordered[j].va)
  }

  lemma {:induction false} SortedRuns(table: seq<Captured>)
    ensures SortedOf(Sort(table, CapturedLe), table)
  {
    var ordered := Sort(table, CapturedLe);
    SortSorts(table, CapturedLe);
    forall i, j | 0 <= i < j < |ordered| ensures ordered[i].va <= ordered[j].va {
      assert CapturedLe(ordered[i], ordered[j]);
    }
  }

  lemma {:induction false} BisectLands(ordered: seq<Captured>, va: int)
    requires forall i, j :: 0 <= i < j < |ordered| ==> ordered[i].va <= ordered[j].va
    ensures var i := BisectRight(Starts(ordered), va) - 1;
            if i < 0 then forall c :: c in ordered ==> va < c.va
            else InZone(ordered, i, va) && forall k :: 0 <= k < |ordered| && InZone(ordered, k, va) ==> k == i
  {
    var starts := Starts(ordered);
    assert Ascending(starts);
    var i := BisectRight(starts, va) - 1;
    forall k | 0 <= k < |ordered| ensures k <= i <==> ordered[k].va <= va {
      assert starts[k] == ordered[k].va;
    }
  }

  /** The runs of a source's table are told apart by their offsets, which follow table order. */
  lemma {:induction false} OffsetsAscend(table: seq<Captured>, i: nat, j: nat)
    requires Stacked(table) && i < |table| && j < |table|
    ensures 0 <= table[i].vas
    ensures i < j <==> table[i].vas < table[j].vas
    ensures i < j ==> table[i].vas + table[i].length <= table[j].vas
  {
    TotalMonotone(table, 0, i);
    assert table[..0] == [];
    if i < j {
      TotalMonotone(table, i, j);
    } else {
      TotalMonotone(table, j, i);
    }
  }

  /** The walk answers from the holder that stands first in the table. */
  lemma {:induction false} FirstHolder(table: seq<Captured>, n: nat, va: int) returns (i: nat)
    requires n <= |table| && ToVas(table, n, va).Some?
    ensures i < n && AtVa(table[i], va) && ToVas(table, n, va) == Some(table[i].vas + (va - table[i].va))
    ensures forall j :: 0 <= j < i ==> !AtVa(table[j], va)
  {
    if ToVas(table, n - 1, va).Some? {
      i := FirstHolder(table, n - 1, va);
    } else {
      i := n - 1;
      ToVasMeans(table, n - 1, va);
    }
  }

  /** A run that holds `va` is the one the walk answers from if no other holder has a lower offset. */
  lemma {:induction false} WalkFinds(table: seq<Captured>, c: Captured, va: int)
    requires Stacked(table) && c in table && AtVa(c, va)
    requires forall d :: d in table && AtVa(d, va) ==> c.vas <= d.vas
    ensures Walked(table, va) == c.vas + (va - c.va)
  {
    var k: nat :| k < |table| && table[k] == c;
    ToVasMeans(table, |table|, va);
    var i := FirstHolder(table, |table|, va);
    assert table[i] in table;
    OffsetsAscend(table, i, k);
    OffsetsAscend(table, k, i);
  }

  lemma {:induction false} WalkMisses(table: seq<Captured>, va: int)
    requires forall c :: c in table ==> !AtVa(c, va)
    ensures Walked(table, va) == -1
  {
    ToVasMeans(table, |table|, va);
    TakeAll(table);
  }

  lemma {:induction false} LandsAt(ordered: seq<Captured>, k: nat, va: int)
    requires (forall i, j :: 0 <= i < j < |ordered| ==> ordered[i].va <= ordered[j].va)
    requires k < |ordered| && InZone(ordered, k, va)
    ensures BisectRight(Starts(ordered), va) == k + 1
  {
    BisectLands(ordered, va);
    assert ordered[k] in ordered;
  }

  /** What the index answers for an address it looks up in run `k`. */
  ghost function Answer(c: Captured, va: int): int { if AtVa(c, va) then c.vas + (va - c.va) else -1 }

  lemma {:induction false} IndexAnswers(table: seq<Captured>, ordered: seq<Captured>, k: nat, va: int)
    requires ordered == Sort(table, CapturedLe) && k < |ordered| && InZone(ordered, k, va)
    ensures Bisected(table, va) == Answer(ordered[k], va)
  {
    SortedRuns(table);
    LookupAnswers(ordered, k, va);
  }

  lemma {:induction false} LookupAnswers(ordered: seq<Captured>, k: nat, va: int)
    requires (forall i, j :: 0 <= i < j < |ordered| ==> ordered[i].va <= ordered[j].va)
    requires k < |ordered| && InZone(ordered, k, va)
    ensures Lookup(ordered, va) == Answer(ordered[k], va)
  {
    LandsAt(ordered, k, va);
  }

  /** What a run holds of an address looked up in run `k` does not make the walk answer otherwise. */
  lemma {:induction false} SafeRun(ordered: seq<Captured>, k: nat, c: Captured, va: int)
    requires k < |ordered| && InZone(ordered, k, va) && AtVa(c, va) && Covered(ordered, k, c)
    ensures c == ordered[k] || (ordered[k].vas < c.vas && AtVa(ordered[k], va))
  {
  }

  lemma {:induction false} SafeWalk(table: seq<Captured>, ordered: seq<Captured>, k: nat, va: int)
    requires Stacked(table) && SortedOf(ordered, table) && IndexSafe(table, ordered)
    requires k < |ordered| && InZone(ordered, k, va)
    ensures Walked(table, va) == Answer(ordered[k], va)
  {
    var s := ordered[k];
    forall c | c in table && AtVa(c, va) ensures c == s || (s.vas < c.vas && AtVa(s, va)) {
      assert Covered(ordered, k, c);
      SafeRun(ordered, k, c, va);
    }
    if AtVa(s, va) { WalkFinds(table, s, va); } else { WalkMisses(table, va); }
  }

  lemma {:induction false} SafeAnswer(table: seq<Captured>, ordered: seq<Captured>, va: int)
    requires Stacked(table) && ordered == Sort(table, CapturedLe) && IndexSafe(table, ordered)
    ensures Bisected(table, va) == Walked(table, va)
  {
    SortedRuns(table);
    BisectLands(ordered, va);
    var i := BisectRight(Starts(ordered), va) - 1;
    if i < 0 {
      WalkMisses(table, va);
    } else {
      IndexAnswers(table, ordered, i, va);
      SafeWalk(table, ordered, i, va);
    }
  }

  /** The address that an uncovered run shows: the first one looked up in run `k` if the other run stands
      before it, and else the first one past it. */
  function Misleading(ordered: seq<Captured>, k: nat, c: Captured): int
    requires k < |ordered|
  {
    if ordered[k].vas < c.vas then ordered[k].va + ordered[k].length else ordered[k].va
  }

  lemma {:induction false} MisleadingIsHeld(table: seq<Captured>, ordered: seq<Captured>, k: nat, c: Captured)
    requires SortedOf(ordered, table) && k < |ordered| && c in table && ordered[k].length > 0
    requires !Covered(ordered, k, c)
    ensures c != ordered[k] && InZone(ordered, k, Misleading(ordered, k, c)) && AtVa(c, Misleading(ordered, k, c))
  {
    var j: nat :| j < |ordered| && ordered[j] == c;
  }

  /** Two runs of a table give one address different offsets. */
  lemma {:induction false} TwoOffsets(table: seq<Captured>, c: Captured, d: Captured, x: int, y: int)
    requires Stacked(table) && c in table && d in table && AtVas(c, x) && AtVas(d, y) && x == y
    ensures c == d
  {
    var i: nat, j: nat :| i < |table| && table[i] == c && j < |table| && table[j] == d;
    OffsetsAscend(table, i, j);
    OffsetsAscend(table, j, i);
  }

  lemma {:induction false} WalkAnswers(table: seq<Captured>, c: Captured, va: int) returns (d: Captured)
    requires Stacked(table) && c in table && AtVa(c, va)
    ensures d in table && AtVa(d, va) && d.vas <= c.vas && Walked(table, va) == d.vas + (va - d.va) >= 0
  {
    var j: nat :| j < |table| && table[j] == c;
    ToVasMeans(table, |table|, va);
    var i := FirstHolder(table, |table|, va);
    d := table[i];
    OffsetsAscend(table, i, j);
    OffsetsAscend(table, j, i);
  }

  /** At the first address looked up in run `k`, a run before it in the table answers the walk. */
  lemma {:induction false} EarlierAnswers(table: seq<Captured>, s: Captured, c: Captured, va: int)
    requires Stacked(table) && s in table && c in table && s != c
    requires va == s.va && AtVa(c, va) && c.vas <= s.vas && s.length > 0
    ensures Walked(table, va) != s.vas
  {
    var d := WalkAnswers(table, c, va);
    if Walked(table, va) == s.vas {
      TwoOffsets(table, s, d, s.vas, d.vas + (va - d.va));
      SameOffset(table, s, c);
    }
  }

  lemma {:induction false} SameOffset(table: seq<Captured>, c: Captured, d: Captured)
    requires Stacked(table) && c in table && d in table && c.vas == d.vas
    ensures c == d
  {
    TwoOffsets(table, c, d, c.vas, d.vas);
  }

  lemma {:induction false} Misled(table: seq<Captured>, ordered: seq<Captured>, k: nat, c: Captured)
    requires Stacked(table) && ordered == Sort(table, CapturedLe) && k < |ordered| && c in table
    requires !Covered(ordered, k, c)
    ensures var va := Misleading(ordered, k, c); Bisected(table, va) != Walked(table, va)
  {
    SortedRuns(table);
    var s, va := ordered[k], Misleading(ordered, k, c);
    assert s in table;
    MisleadingIsHeld(table, ordered, k, c);
    IndexAnswers(table, ordered, k, va);
    if s.vas < c.vas {
      var d := WalkAnswers(table, c, va);
    } else {
      EarlierAnswers(table, s, c, va);
    }
  }

  /** For a source's own table the index answers every address as the walk does if and only if every
      run is covered wherever it meets the addresses looked up in another one. */
  lemma {:induction false} IndexIsWalkExactly(table: seq<Captured>)
    requires Stacked(table)
    ensures (forall va :: Bisected(table, va) == Walked(table, va)) <==> IndexSafe(table, Sort(table, CapturedLe))
  {
    var ordered := Sort(table, CapturedLe);
    if IndexSafe(table, ordered) {
      forall va ensures Bisected(table, va) == Walked(table, va) { SafeAnswer(table, ordered, va); }
    } else {
      var k: nat, c :| k < |ordered| && c in table && !Covered(ordered, k, c);
      Misled(table, ordered, k, c);
    }
  }

  /** Overlapping runs for which the index and the walk name different bytes. */
  lemma {:induction false} OverlapMisleadsIndex()
    ensures var table := [Captured(0, 10, 0), Captured(4, 2, 10)];
            Stacked(table) && ToVas(table, 2, 5) == Some(5) && Bisected(table, 5) == 11
  {
    var x, y := Captured(0, 10, 0), Captured(4, 2, 10);
    var table := [x, y];
    assert table[..0] == [] && table[..1] == [x] && [x][..0] == [];
    assert Total([x]) == 10;
    assert ToVas(table, 1, 5) == Some(5);
    SortedPair(x, y);
    var starts := Starts([x, y]);
    assert starts[0] == 0 && starts[1] == 4;
    assert Ascending(starts);
    assert BisectRight(starts, 5) == 2;
  }

  lemma {:induction false} SortedPair(x: Captured, y: Captured)
    requires CapturedLe(x, y)
    ensures Sort([x, y], CapturedLe) == [x, y]
  {
    assert [x, y][1..] == [y] && [y][1..] == [];
    assert Sort([y], CapturedLe) == Insert(y, [], CapturedLe) == [y];
  }
}
