/** Runs of addresses that carry one label each, and what a list of them denotes.

    `Count(runs, a, Some(l))` is how many runs put label `l` on address `a`;
    `Count(runs, a, None)` is how many runs cover `a` at all. Every transformation of
    run lists in the model is stated against these counts. */
module LabelledRuns {
  import opened Sequences

  datatype Run<L(==)> = Run(start: int, len: int, tag: L) {
    function End(): int { start + len }

    predicate Covers(a: int) { start <= a < start + len }

    predicate Puts(a: int, l: Option<L>) { Covers(a) && (l.None? || l.value == tag) }
  }

  ghost function Hits<L>(a: int, l: Option<L>): Run<L> -> int {
    (r: Run<L>) => if r.Puts(a, l) then 1 else 0
  }

  ghost function Count<L>(runs: seq<Run<L>>, a: int, l: Option<L>): int {
    Sum(runs, Hits(a, l))
  }

  ghost predicate Holds<L>(runs: seq<Run<L>>, a: int, l: L) {
    exists i :: 0 <= i < |runs| && runs[i].Puts(a, Some(l))
  }

  /** No address is covered twice. */
  ghost predicate Disjoint<L>(runs: seq<Run<L>>) {
    forall a :: Count(runs, a, None) <= 1
  }

  ghost predicate Positive<L>(runs: seq<Run<L>>) {
    forall i :: 0 <= i < |runs| ==> runs[i].len > 0
  }

  /** Positive lengths, ascending and without overlap. */
  ghost predicate Ordered<L>(runs: seq<Run<L>>) {
    && Positive(runs)
    && forall i, j :: 0 <= i < j < |runs| ==> runs[i].End() <= runs[j].start
  }

  /** Ordered, and no two neighbours that touch carry the same label. */
  ghost predicate Canonical<L>(runs: seq<Run<L>>) {
    && Ordered(runs)
    && forall i :: 0 < i < |runs| ==>
                     runs[i - 1].End() != runs[i].start || runs[i - 1].tag != runs[i].tag
  }

  predicate StartLe<L(==)>(x: Run<L>, y: Run<L>) { x.start <= y.start }

  lemma {:induction false} HoldsIsPositiveCount<L>(runs: seq<Run<L>>, a: int, l: L)
    ensures Count(runs, a, Some(l)) >= 0
    ensures Holds(runs, a, l) <==> Count(runs, a, Some(l)) > 0
  {
    if runs != [] {
      var n := |runs| - 1;
      HoldsIsPositiveCount(runs[..n], a, l);
      if Holds(runs, a, l) {
        var i :| 0 <= i < |runs| && runs[i].Puts(a, Some(l));
        if i < n { assert runs[..n][i].Puts(a, Some(l)); }
      }
      if Holds(runs[..n], a, l) {
        var i :| 0 <= i < n && runs[..n][i].Puts(a, Some(l));
        assert runs[i].Puts(a, Some(l));
      }
    }
  }

  lemma {:induction false} CountAtLeastOne<L>(runs: seq<Run<L>>, i: nat, a: int)
    requires i < |runs| && runs[i].Covers(a)
    ensures Count(runs, a, None) >= 1
  {
    var n := |runs| - 1;
    if i < n { CountAtLeastOne(runs[..n], i, a); } else { CountNonNegative(runs[..n], a, None); }
  }

  lemma {:induction false} CountNonNegative<L>(runs: seq<Run<L>>, a: int, l: Option<L>)
    ensures Count(runs, a, l) >= 0
  {
    if runs != [] { CountNonNegative(runs[..|runs| - 1], a, l); }
  }

  /** Two runs that cover one address are two covers. */
  lemma {:induction false} CountTwo<L>(runs: seq<Run<L>>, i: nat, j: nat, a: int)
    requires i < j < |runs| && runs[i].Covers(a) && runs[j].Covers(a)
    ensures Count(runs, a, None) >= 2
  {
    var n := |runs| - 1;
    if j < n { CountTwo(runs[..n], i, j, a); } else { CountAtLeastOne(runs[..n], i, a); }
  }

  lemma {:induction false} CountIsCovered<L>(runs: seq<Run<L>>, a: int) returns (i: nat)
    requires Count(runs, a, None) > 0
    ensures i < |runs| && runs[i].Covers(a)
  {
    var n := |runs| - 1;
    if runs[n].Covers(a) { i := n; } else { i := CountIsCovered(runs[..n], a); }
  }

  /** Runs of which no two cover an address cover it at most once. */
  lemma {:induction false} CountOnce<L>(runs: seq<Run<L>>, a: int)
    requires forall i, j :: 0 <= i < j < |runs| && runs[i].Covers(a) ==> !runs[j].Covers(a)
    ensures Count(runs, a, None) <= 1
  {
    if runs != [] {
      var n := |runs| - 1;
      CountOnce(runs[..n], a);
      if Count(runs[..n], a, None) > 0 {
        var i := CountIsCovered(runs[..n], a);
        assert runs[i].Covers(a);
      }
    }
  }

  lemma {:induction false} OrderedFromDisjoint<L(!new)>(runs: seq<Run<L>>)
    requires Positive(runs) && SortedBy(runs, StartLe) && Disjoint(runs)
    ensures Ordered(runs)
  {
    forall i, j | 0 <= i < j < |runs| ensures runs[i].End() <= runs[j].start {
      assert StartLe(runs[i], runs[j]);
      if runs[i].End() > runs[j].start {
        CountTwo(runs, i, j, runs[j].start);
      }
    }
  }

  lemma {:induction false} OrderedIsDisjoint<L>(runs: seq<Run<L>>, a: int)
    requires Ordered(runs)
    ensures Count(runs, a, None) <= 1
    ensures runs != [] && Count(runs, a, None) == 1 ==> a < runs[|runs| - 1].End()
  {
    if runs != [] { OrderedIsDisjoint(runs[..|runs| - 1], a); }
  }

  /** A later run that reaches down to the first run's end carries another label. */
  lemma {:induction false} TouchingDiffers<L>(y: seq<Run<L>>, j: nat)
    requires Canonical(y) && 0 < j < |y| && y[j].start <= y[0].End()
    ensures y[j].tag != y[0].tag
  {
    var next, later := y[1], y[j];
    assert y[0].End() <= next.start < next.End();
    assert next.End() <= later.start || j == 1;
  }

  lemma {:induction false} HeadsAgree<L(!new)>(x: seq<Run<L>>, y: seq<Run<L>>)
    requires Canonical(x) && Canonical(y) && x != [] && y != []
    requires forall a, l :: Holds(x, a, l) <==> Holds(y, a, l)
    ensures x[0].start == y[0].start && x[0].tag == y[0].tag && x[0].len <= y[0].len
  {
    var b, e := x[0].start, y[0].End();
    assert x[0].Puts(b, Some(x[0].tag));
    assert Holds(x, b, x[0].tag);
    assert y[0].Puts(y[0].start, Some(y[0].tag));
    assert Holds(y, y[0].start, y[0].tag);
    assert b == y[0].start;
    if x[0].End() > e {
      assert x[0].Puts(e, Some(x[0].tag));
      assert Holds(x, e, x[0].tag);
      var j :| 0 <= j < |y| && y[j].Puts(e, Some(x[0].tag));
      TouchingDiffers(y, j);
    }
  }

  lemma {:induction false} TailHolds<L>(x: seq<Run<L>>, a: int, l: L)
    requires Ordered(x) && x != []
    ensures Holds(x[1..], a, l) <==> Holds(x, a, l) && !x[0].Covers(a)
  {
    if Holds(x[1..], a, l) {
      var i :| 0 <= i < |x[1..]| && x[1..][i].Puts(a, Some(l));
      assert x[i + 1].Puts(a, Some(l));
      assert x[0].End() <= x[i + 1].start;
    }
    if Holds(x, a, l) && !x[0].Covers(a) {
      var i :| 0 <= i < |x| && x[i].Puts(a, Some(l));
      assert x[1..][i - 1].Puts(a, Some(l));
    }
  }

  lemma {:induction false} HeadHolds<L>(runs: seq<Run<L>>)
    requires Positive(runs) && runs != []
    ensures Holds(runs, runs[0].start, runs[0].tag)
  {
    assert runs[0].Puts(runs[0].start, Some(runs[0].tag));
  }

  lemma {:induction false} NoHeadNoRuns<L>(runs: seq<Run<L>>)
    requires Positive(runs) && forall a, l :: !Holds(runs, a, l)
    ensures runs == []
  {
    if runs != [] { HeadHolds(runs); }
  }

  lemma {:induction false} TailsAgree<L(!new)>(x: seq<Run<L>>, y: seq<Run<L>>)
    requires Canonical(x) && Canonical(y) && x != [] && y != []
    requires forall a, l :: Holds(x, a, l) <==> Holds(y, a, l)
    ensures x[0] == y[0] && Canonical(x[1..]) && Canonical(y[1..])
    ensures forall a, l :: Holds(x[1..], a, l) <==> Holds(y[1..], a, l)
  {
    HeadsAgree(x, y);
    HeadsAgree(y, x);
    forall a, l ensures Holds(x[1..], a, l) <==> Holds(y[1..], a, l) {
      TailHolds(x, a, l);
      TailHolds(y, a, l);
    }
  }

  /** A canonical list is determined by what it denotes: two canonical lists that put the same
      labels on the same addresses are the same list. */
  lemma {:induction false} CanonicalUnique<L(!new)>(x: seq<Run<L>>, y: seq<Run<L>>)
    requires Canonical(x) && Canonical(y)
    requires forall a, l :: Holds(x, a, l) <==> Holds(y, a, l)
    ensures x == y
  {
    if x == [] {
      NoHeadNoRuns(y);
    } else if y == [] {
      NoHeadNoRuns(x);
    } else {
      TailsAgree(x, y);
      CanonicalUnique(x[1..], y[1..]);
      assert x == [x[0]] + x[1..] && y == [y[0]] + y[1..];
    }
  }
}
