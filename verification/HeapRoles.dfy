/** Heap roles of a view window: role runs mapped to view offsets and coalesced, chunk starts and
    neighbouring chunks (app/tools_heap.py, heap/model.py). */
module HeapRoles {
  import opened Sequences
  import opened LabelledRuns

  /** A role by its code; roles are ordered by it. */
  type Role = int

  type RoleRun = Run<Role>

  // ---- coalescing --------------------------------------------------------------------------------------

  /** The role of the first of the first `n` runs that covers `a`. */
  ghost function FirstRole(runs: seq<RoleRun>, n: nat, a: int): Option<Role>
    requires n <= |runs|
  {
    if n == 0 then None
    else if FirstRole(runs, n - 1, a).Some? then FirstRole(runs, n - 1, a)
    else if runs[n - 1].Covers(a) then Some(runs[n - 1].tag)
    else None
  }

  ghost predicate Denotes(merged: seq<RoleRun>, runs: seq<RoleRun>, n: nat)
    requires n <= |runs|
  {
    forall a, r :: Holds(merged, a, r) <==> FirstRole(runs, n, a) == Some(r)
  }

  /** The end of the last merged run is the furthest end seen, and some run seen ends there. */
  ghost predicate EndSeen(merged: seq<RoleRun>, runs: seq<RoleRun>, n: nat)
    requires n <= |runs|
  {
    if merged == [] then n == 0
    else exists j :: 0 <= j < n && runs[j].End() == merged[|merged| - 1].End()
  }

  ghost predicate Coalescing(merged: seq<RoleRun>, runs: seq<RoleRun>, n: nat)
    requires n <= |runs|
  {
    Canonical(merged) && Denotes(merged, runs, n) && EndSeen(merged, runs, n)
  }

  /** Runs without overlap and maximally joined; each offset keeps the role of the first run that
      covers it. This is the only canonical list with that meaning. */
  method Coalesced(runs: seq<RoleRun>) returns (merged: seq<RoleRun>)
    requires Positive(runs) && SortedBy(runs, StartLe)
    ensures Canonical(merged) && Denotes(merged, runs, |runs|)
  {
    merged := [];
    NothingHeld();
    for k := 0 to |runs|
      invariant Coalescing(merged, runs, k)
    {
      var start, len, role := runs[k].start, runs[k].len, runs[k].tag;
      if merged != [] {
        var last := merged[|merged| - 1];
        if start < last.End() {
          start, len := last.End(), start + len - last.End();
          if len <= 0 {
            Swallowed(merged, runs, k);
            continue;
          }
        }
        Kept(merged, runs, k, start, len);
        if start == last.End() && role == last.tag {
          SplitLast(merged);
          Extend(merged[..|merged| - 1], last, runs, k, len);
          merged := merged[..|merged| - 1] + [Run(last.start, last.len + len, role)];
          continue;
        }
      } else {
        Kept(merged, runs, k, start, len);
      }
      AddRun(merged, runs, k, Run(start, len, role));
      merged := merged + [Run(start, len, role)];
    }
  }

  lemma {:induction false} NothingHeld()
    ensures forall a, r: Role :: !Holds([], a, r)
  {
  }

  /** Everything below the furthest end and not below the next run's start has been seen. */
  lemma {:induction false} SeenBelow(merged: seq<RoleRun>, runs: seq<RoleRun>, k: nat, a: int)
    requires k < |runs| && SortedBy(runs, StartLe) && EndSeen(merged, runs, k) && merged != []
    requires runs[k].start <= a < merged[|merged| - 1].End()
    ensures FirstRole(runs, k, a).Some?
  {
    var j :| 0 <= j < k && runs[j].End() == merged[|merged| - 1].End();
    assert StartLe(runs[j], runs[k]);
    CoveredHasRole(runs, k, j, a);
  }

  lemma {:induction false} CoveredHasRole(runs: seq<RoleRun>, n: nat, j: nat, a: int)
    requires j < n <= |runs| && runs[j].Covers(a)
    ensures FirstRole(runs, n, a).Some?
  {
    if j < n - 1 { CoveredHasRole(runs, n - 1, j, a); }
  }

  /** What the merged runs hold ends with the last of them. */
  lemma {:induction false} NothingPast(merged: seq<RoleRun>, runs: seq<RoleRun>, n: nat, a: int)
    requires n <= |runs| && Coalescing(merged, runs, n)
    requires merged != [] ==> merged[|merged| - 1].End() <= a
    ensures FirstRole(runs, n, a).None?
  {
    var role := FirstRole(runs, n, a);
    if role.Some? { HeldBefore(merged, a, role.value); }
  }

  lemma {:induction false} HeldBefore(merged: seq<RoleRun>, a: int, r: Role)
    requires Ordered(merged) && Holds(merged, a, r)
    ensures merged != [] && a < merged[|merged| - 1].End()
  {
    var i :| 0 <= i < |merged| && merged[i].Puts(a, Some(r));
    assert i < |merged| - 1 ==> merged[i].End() <= merged[|merged| - 1].start;
  }

  /** The part of the next run that is kept is exactly what no earlier run covers. */
  ghost predicate Fresh(merged: seq<RoleRun>, runs: seq<RoleRun>, k: nat, start: int, len: int)
    requires k < |runs|
  {
    && len > 0 && start + len == runs[k].End()
    && (merged != [] ==> merged[|merged| - 1].End() <= start)
    && forall a :: FreshAt(runs, k, start, len, a)
  }

  ghost predicate FreshAt(runs: seq<RoleRun>, k: nat, start: int, len: int, a: int)
    requires k < |runs|
  {
    FirstRole(runs, k + 1, a) == if start <= a < start + len then Some(runs[k].tag) else FirstRole(runs, k, a)
  }

  lemma {:induction false} Kept(merged: seq<RoleRun>, runs: seq<RoleRun>, k: nat, start: int, len: int)
    requires k < |runs| && SortedBy(runs, StartLe) && Coalescing(merged, runs, k)
    requires len > 0 && start + len == runs[k].End()
    requires start == if merged == [] then runs[k].start else Max(runs[k].start, merged[|merged| - 1].End())
    ensures Fresh(merged, runs, k, start, len)
  {
    forall a ensures FreshAt(runs, k, start, len, a) {
      if start <= a < start + len { NothingPast(merged, runs, k, a); }
      if runs[k].Covers(a) && a < start { SeenBelow(merged, runs, k, a); }
    }
  }

  lemma {:induction false} Swallowed(merged: seq<RoleRun>, runs: seq<RoleRun>, k: nat)
    requires k < |runs| && SortedBy(runs, StartLe) && Coalescing(merged, runs, k)
    requires merged != [] && runs[k].End() <= merged[|merged| - 1].End()
    ensures Coalescing(merged, runs, k + 1)
  {
    forall a, r ensures Holds(merged, a, r) <==> FirstRole(runs, k + 1, a) == Some(r) {
      assert Holds(merged, a, r) <==> FirstRole(runs, k, a) == Some(r);
      if runs[k].Covers(a) { SeenBelow(merged, runs, k, a); }
    }
    var j :| 0 <= j < k && runs[j].End() == merged[|merged| - 1].End();
    assert 0 <= j < k + 1;
  }

  lemma {:induction false} HoldsSnoc(x: seq<RoleRun>, run: RoleRun, a: int, r: Role)
    ensures Holds(x + [run], a, r) <==> Holds(x, a, r) || run.Puts(a, Some(r))
  {
    HoldsIsPositiveCount(x + [run], a, r);
    HoldsIsPositiveCount(x, a, r);
    SumSnoc(x, run, Hits(a, Some(r)));
  }

  lemma {:induction false} AddRun(merged: seq<RoleRun>, runs: seq<RoleRun>, k: nat, run: RoleRun)
    requires k < |runs| && Coalescing(merged, runs, k) && run.tag == runs[k].tag
    requires Fresh(merged, runs, k, run.start, run.len)
    requires merged != [] ==> var last := merged[|merged| - 1]; last.End() != run.start || last.tag != run.tag
    ensures Coalescing(merged + [run], runs, k + 1)
  {
    var next := merged + [run];
    forall a, r ensures Holds(next, a, r) <==> FirstRole(runs, k + 1, a) == Some(r) {
      HoldsSnoc(merged, run, a, r);
      assert FreshAt(runs, k, run.start, run.len, a);
      assert Holds(merged, a, r) <==> FirstRole(runs, k, a) == Some(r);
      if run.Covers(a) { NothingPast(merged, runs, k, a); }
    }
    forall i | 0 <= i < |merged| ensures merged[i].End() <= run.start {
      if i < |merged| - 1 { assert merged[i].End() <= merged[|merged| - 1].start; }
    }
    assert runs[k].End() == next[|next| - 1].End();
  }

  lemma {:induction false} Extend(init: seq<RoleRun>, last: RoleRun, runs: seq<RoleRun>, k: nat, len: int)
    requires k < |runs| && Coalescing(init + [last], runs, k)
    requires last.tag == runs[k].tag && Fresh(init + [last], runs, k, last.End(), len)
    ensures Coalescing(init + [Run(last.start, last.len + len, last.tag)], runs, k + 1)
  {
    assert (init + [last])[|init|] == last;
    LongerDenotes(init, last, runs, k, len);
    LongerLast(init, last, len);
    assert runs[k].End() == Run(last.start, last.len + len, last.tag).End();
  }

  lemma {:induction false} LongerDenotes(init: seq<RoleRun>, last: RoleRun, runs: seq<RoleRun>, k: nat, len: int)
    requires k < |runs| && Coalescing(init + [last], runs, k)
    requires last.tag == runs[k].tag && Fresh(init + [last], runs, k, last.End(), len)
    ensures Denotes(init + [Run(last.start, last.len + len, last.tag)], runs, k + 1)
  {
    var merged, next := init + [last], init + [Run(last.start, last.len + len, last.tag)];
    assert merged[|init|] == last;
    forall a, r ensures Holds(next, a, r) <==> FirstRole(runs, k + 1, a) == Some(r) {
      assert FreshAt(runs, k, last.End(), len, a);
      LongerHolds(init, last, len, a, r);
      assert Holds(merged, a, r) <==> FirstRole(runs, k, a) == Some(r);
      if last.End() <= a { NothingPast(merged, runs, k, a); }
    }
  }

  lemma {:induction false} LongerHolds(init: seq<RoleRun>, last: RoleRun, len: int, a: int, r: Role)
    requires last.len >= 0 && len >= 0
    ensures Holds(init + [Run(last.start, last.len + len, last.tag)], a, r)
       <==> Holds(init + [last], a, r) || (last.End() <= a < last.End() + len && r == last.tag)
  {
    HoldsSnoc(init, Run(last.start, last.len + len, last.tag), a, r);
    HoldsSnoc(init, last, a, r);
  }

  lemma {:induction false} LongerLast(init: seq<RoleRun>, last: RoleRun, len: int)
    requires Canonical(init + [last]) && len >= 0
    ensures Canonical(init + [Run(last.start, last.len + len, last.tag)])
  {
    var was, now := init + [last], init + [Run(last.start, last.len + len, last.tag)];
    forall i | 0 <= i < |now| ensures now[i].start == was[i].start && now[i].tag == was[i].tag && now[i].len > 0 {
      assert was[i].len > 0;
    }
    forall i, j | 0 <= i < j < |now| ensures now[i].End() <= now[j].start { assert was[i].End() <= was[j].start; }
    forall i | 0 < i < |now| ensures now[i - 1].End() != now[i].start || now[i - 1].tag != now[i].tag {
      assert was[i - 1] == now[i - 1];
    }
  }

  // ---- a window's runs ------------------------------------------------------------------------------------

  /** A contiguous piece of the view window: its view offset, its address and its length. */
  datatype Piece = Piece(offset: int, va: int, length: int) {
    predicate Has(w: int) { offset <= w < offset + length }

    function Va(w: int): int { va + (w - offset) }
  }

  ghost predicate PiecesApart(pieces: seq<Piece>) {
    forall i, j, w :: 0 <= i < j < |pieces| && pieces[i].Has(w) ==> !pieces[j].Has(w)
  }

  /** A layout answers `[lo, hi)` with runs of positive length inside it that do not overlap, and
      gives an address the same role in every range it asks for. */
  ghost predicate Answers(roleRuns: (int, int) -> seq<RoleRun>, roleAt: int -> Option<Role>) {
    forall lo, hi ::
      && Ordered(roleRuns(lo, hi))
      && (forall a, r :: Holds(roleRuns(lo, hi), a, r) <==> lo <= a < hi && roleAt(a) == Some(r))
  }

  predicate RoleRunLe(x: RoleRun, y: RoleRun) {
    || x.start < y.start
    || (x.start == y.start && (x.len < y.len || (x.len == y.len && x.tag <= y.tag)))
  }

  function Moved(runs: seq<RoleRun>, shift: int): (r: seq<RoleRun>)
    ensures |r| == |runs| && forall i :: 0 <= i < |r| ==> r[i] == Run(runs[i].start + shift, runs[i].len, runs[i].tag)
  {
    seq(|runs|, i requires 0 <= i < |runs| => Run(runs[i].start + shift, runs[i].len, runs[i].tag))
  }

  lemma {:induction false} MovedCount(runs: seq<RoleRun>, shift: int, w: int, l: Option<Role>)
    ensures Count(Moved(runs, shift), w, l) == Count(runs, w - shift, l)
  {
    if runs != [] {
      MovedCount(runs[..|runs| - 1], shift, w, l);
      assert Moved(runs, shift)[..|runs| - 1] == Moved(runs[..|runs| - 1], shift);
    }
  }

  /** The role of view offset `w`, from the piece that shows it. */
  ghost predicate ShowsRole(pieces: seq<Piece>, n: nat, roleAt: int -> Option<Role>, w: int, r: Role)
    requires n <= |pieces|
  {
    exists i :: 0 <= i < n && pieces[i].Has(w) && roleAt(pieces[i].Va(w)) == Some(r)
  }

  /** Runs collected from the first `n` pieces: one per offset at most, its role from its piece. */
  ghost predicate Collected(runs: seq<RoleRun>, pieces: seq<Piece>, n: nat, roleAt: int -> Option<Role>)
    requires n <= |pieces|
  {
    && Positive(runs)
    && (forall w :: Count(runs, w, None) <= 1)
    && (forall w :: Count(runs, w, None) > 0 ==> exists i :: 0 <= i < n && pieces[i].Has(w))
    && (forall w, r :: Holds(runs, w, r) <==> ShowsRole(pieces, n, roleAt, w, r))
  }

  /** The role of every heap byte of the window in view offsets, joined across pieces: an offset
      carries a role exactly when its address does, and the list is the canonical one. */
  method ViewRoleRuns(roleRuns: (int, int) -> seq<RoleRun>, ghost roleAt: int -> Option<Role>, pieces: seq<Piece>)
    returns (out: seq<RoleRun>)
    requires Answers(roleRuns, roleAt) && PiecesApart(pieces)
    ensures Canonical(out)
    ensures ShowsRoles(out, pieces, roleAt)
  {
    var runs := Collect(roleRuns, roleAt, pieces);
    CollectedRuns(runs, pieces, |pieces|, roleAt);
    out := Coalesced(Sort(runs, RoleRunLe));
    RolesShown(runs, out, pieces, roleAt);
  }

  /** The runs of every piece, moved to where the piece stands in the view. */
  method Collect(roleRuns: (int, int) -> seq<RoleRun>, ghost roleAt: int -> Option<Role>, pieces: seq<Piece>)
    returns (runs: seq<RoleRun>)
    requires Answers(roleRuns, roleAt) && PiecesApart(pieces)
    ensures Collected(runs, pieces, |pieces|, roleAt)
  {
    runs := [];
    for k := 0 to |pieces|
      invariant Collected(runs, pieces, k, roleAt)
    {
      var p := pieces[k];
      CollectNext(runs, pieces, k, roleRuns, roleAt);
      ghost var next := runs + Moved(roleRuns(p.va, p.va + p.length), p.offset - p.va);
      runs := runs + Moved(roleRuns(p.va, p.va + p.length), p.offset - p.va);
      assert runs == next;
    }
  }

  lemma {:induction false} CollectedRuns(runs: seq<RoleRun>, pieces: seq<Piece>, n: nat, roleAt: int -> Option<Role>)
    requires n <= |pieces| && Collected(runs, pieces, n, roleAt)
    ensures Positive(Sort(runs, RoleRunLe)) && SortedBy(Sort(runs, RoleRunLe), StartLe)
  {
    OrderedRoles(runs);
  }

  lemma {:induction false} RolesShown(runs: seq<RoleRun>, out: seq<RoleRun>, pieces: seq<Piece>,
                                      roleAt: int -> Option<Role>)
    requires Collected(runs, pieces, |pieces|, roleAt)
    requires Denotes(out, Sort(runs, RoleRunLe), |Sort(runs, RoleRunLe)|)
    ensures ShowsRoles(out, pieces, roleAt)
  {
    var ordered := Sort(runs, RoleRunLe);
    OrderedRoles(runs);
    TakeAll(ordered);
    forall w, r ensures Holds(out, w, r) <==> ShowsRole(pieces, |pieces|, roleAt, w, r) {
      assert Holds(out, w, r) <==> FirstRole(ordered, |ordered|, w) == Some(r);
      assert Count(ordered, w, None) <= 1;
      FirstIsOnly(ordered, |ordered|, w, r);
      SortKeepsHolds(runs, w, r);
      assert Holds(runs, w, r) <==> ShowsRole(pieces, |pieces|, roleAt, w, r);
    }
  }

  ghost predicate ShowsRoles(out: seq<RoleRun>, pieces: seq<Piece>, roleAt: int -> Option<Role>) {
    forall w, r :: Holds(out, w, r) <==> ShowsRole(pieces, |pieces|, roleAt, w, r)
  }

  lemma {:induction false} CollectNext(runs: seq<RoleRun>, pieces: seq<Piece>, k: nat,
                                       roleRuns: (int, int) -> seq<RoleRun>, roleAt: int -> Option<Role>)
    requires k < |pieces| && Answers(roleRuns, roleAt) && PiecesApart(pieces) && Collected(runs, pieces, k, roleAt)
    ensures var p := pieces[k];
            Collected(runs + Moved(roleRuns(p.va, p.va + p.length), p.offset - p.va), pieces, k + 1, roleAt)
  {
    var p := pieces[k];
    var here := roleRuns(p.va, p.va + p.length);
    assert Ordered(here);
    CollectOnce(runs, here, pieces, k, roleAt);
    CollectRoles(runs, here, pieces, k, roleAt);
  }

  ghost predicate AnswersPiece(here: seq<RoleRun>, p: Piece, roleAt: int -> Option<Role>) {
    forall a, r :: Holds(here, a, r) <==> p.va <= a < p.va + p.length && roleAt(a) == Some(r)
  }

  lemma {:induction false} CollectOnce(runs: seq<RoleRun>, here: seq<RoleRun>, pieces: seq<Piece>, k: nat,
                                       roleAt: int -> Option<Role>)
    requires k < |pieces| && PiecesApart(pieces) && Collected(runs, pieces, k, roleAt)
    requires Ordered(here) && AnswersPiece(here, pieces[k], roleAt)
    ensures var next := runs + Moved(here, pieces[k].offset - pieces[k].va);
            forall w :: Count(next, w, None) <= 1
              && (Count(next, w, None) > 0 ==> exists i :: 0 <= i < k + 1 && pieces[i].Has(w))
  {
    var p := pieces[k];
    var shift := p.offset - p.va;
    var moved := Moved(here, shift);
    var next := runs + moved;
    forall w ensures Count(next, w, None) <= 1
      && (Count(next, w, None) > 0 ==> exists i :: 0 <= i < k + 1 && pieces[i].Has(w))
    {
      MovedOnce(runs, here, p, roleAt, w);
      assert Count(runs, w, None) <= 1;
      assert Count(runs, w, None) > 0 ==> exists i :: 0 <= i < k && pieces[i].Has(w);
    }
  }

  lemma {:induction false} MovedOnce(runs: seq<RoleRun>, here: seq<RoleRun>, p: Piece, roleAt: int -> Option<Role>,
                                     w: int)
    requires Ordered(here) && AnswersPiece(here, p, roleAt)
    ensures var more := Count(runs + Moved(here, p.offset - p.va), w, None) - Count(runs, w, None);
            0 <= more <= 1 && (more == 1 ==> p.Has(w))
  {
    var shift := p.offset - p.va;
    SumAppend(runs, Moved(here, shift), Hits(w, None));
    MovedCount(here, shift, w, None);
    CountNonNegative(here, w - shift, None);
    OrderedIsDisjoint(here, w - shift);
    InsidePiece(here, p, roleAt, w - shift);
  }

  lemma {:induction false} CollectRoles(runs: seq<RoleRun>, here: seq<RoleRun>, pieces: seq<Piece>, k: nat,
                                        roleAt: int -> Option<Role>)
    requires k < |pieces| && Collected(runs, pieces, k, roleAt) && AnswersPiece(here, pieces[k], roleAt)
    ensures var next := runs + Moved(here, pieces[k].offset - pieces[k].va);
            forall w, r :: Holds(next, w, r) <==> ShowsRole(pieces, k + 1, roleAt, w, r)
  {
    var p := pieces[k];
    var shift := p.offset - p.va;
    var moved := Moved(here, shift);
    var next := runs + moved;
    forall w, r ensures Holds(next, w, r) <==> ShowsRole(pieces, k + 1, roleAt, w, r) {
      assert Holds(runs, w, r) <==> ShowsRole(pieces, k, roleAt, w, r);
      HoldsBoth(runs, moved, w, r);
      MovedCount(here, shift, w, Some(r));
      HoldsIsPositiveCount(moved, w, r);
      HoldsIsPositiveCount(here, w - shift, r);
      assert p.Va(w) == w - shift;
    }
  }

  lemma {:induction false} InsidePiece(here: seq<RoleRun>, p: Piece, roleAt: int -> Option<Role>, a: int)
    requires AnswersPiece(here, p, roleAt)
    ensures Count(here, a, None) > 0 ==> p.va <= a < p.va + p.length
  {
    if Count(here, a, None) > 0 {
      var i := CoverOf(here, a);
      assert here[i].Puts(a, Some(here[i].tag));
      assert Holds(here, a, here[i].tag);
    }
  }

  lemma {:induction false} CoverOf(runs: seq<RoleRun>, a: int) returns (i: nat)
    requires Count(runs, a, None) > 0
    ensures i < |runs| && runs[i].Covers(a)
  {
    i := |runs| - 1;
    if !runs[i].Covers(a) { i := CoverOf(runs[..i], a); }
  }

  lemma {:induction false} HoldsBoth(x: seq<RoleRun>, y: seq<RoleRun>, a: int, r: Role)
    ensures Holds(x + y, a, r) <==> Holds(x, a, r) || Holds(y, a, r)
  {
    HoldsIsPositiveCount(x + y, a, r);
    HoldsIsPositiveCount(x, a, r);
    HoldsIsPositiveCount(y, a, r);
    SumAppend(x, y, Hits(a, Some(r)));
  }

  lemma {:induction false} SortKeepsHolds(runs: seq<RoleRun>, a: int, r: Role)
    ensures Holds(Sort(runs, RoleRunLe), a, r) <==> Holds(runs, a, r)
  {
    SumSort(runs, RoleRunLe, Hits(a, Some(r)));
    HoldsIsPositiveCount(Sort(runs, RoleRunLe), a, r);
    HoldsIsPositiveCount(runs, a, r);
  }

  lemma {:induction false} OrderedRoles(runs: seq<RoleRun>)
    requires Positive(runs) && forall w :: Count(runs, w, None) <= 1
    ensures var ordered := Sort(runs, RoleRunLe);
            Positive(ordered) && SortedBy(ordered, StartLe) && forall w :: Count(ordered, w, None) <= 1
  {
    var ordered := Sort(runs, RoleRunLe);
    SortSorts(runs, RoleRunLe);
    forall i | 0 <= i < |ordered| ensures ordered[i].len > 0 { assert ordered[i] in runs; }
    forall i, j | 0 <= i < j < |ordered|
      ensures StartLe(ordered[i], ordered[j])
    {
      assert RoleRunLe(ordered[i], ordered[j]);
    }
    forall w ensures Count(ordered, w, None) <= 1 {
      SumSort(runs, RoleRunLe, Hits(w, None));
      assert Count(runs, w, None) <= 1;
    }
  }

  /** Where no two runs overlap the first role is the only one. */
  lemma {:induction false} FirstIsOnly(runs: seq<RoleRun>, n: nat, a: int, r: Role)
    requires n <= |runs| && Count(runs, a, None) <= 1
    ensures FirstRole(runs, n, a) == Some(r) <==> Holds(runs[..n], a, r)
  {
    TakeAll(runs);
    if n > 0 {
      FirstIsOnly(runs, n - 1, a, r);
      TakeNext(runs, n - 1);
      HoldsSnoc(runs[..n - 1], runs[n - 1], a, r);
      var role := FirstRole(runs, n - 1, a);
      if role.Some? && runs[n - 1].Covers(a) {
        var j := FirstCover(runs, n - 1, a);
        CountTwo(runs, j, n - 1, a);
      }
    }
  }

  lemma {:induction false} FirstCover(runs: seq<RoleRun>, n: nat, a: int) returns (j: nat)
    requires n <= |runs| && FirstRole(runs, n, a).Some?
    ensures j < n && runs[j].Covers(a)
  {
    if FirstRole(runs, n - 1, a).Some? { j := FirstCover(runs, n - 1, a); } else { j := n - 1; }
  }

  // ---- chunk starts -----------------------------------------------------------------------------------------

  /** View offsets of the chunks that start in the first `n` pieces, every chunk looked at. */
  ghost function AllStarts(chunks: seq<int>, pieces: seq<Piece>, n: nat): seq<int>
    requires n <= |pieces|
  {
    if n == 0 then [] else AllStarts(chunks, pieces, n - 1) + StartsIn(chunks, pieces[n - 1], |chunks|)
  }

  ghost function StartsIn(chunks: seq<int>, p: Piece, n: nat): seq<int>
    requires n <= |chunks|
  {
    if n == 0 then []
    else
      StartsIn(chunks, p, n - 1)
      + if p.va <= chunks[n - 1] < p.va + p.length then [p.offset + (chunks[n - 1] - p.va)] else []
  }

  predicate IntLe(x: int, y: int) { x <= y }

  /** The sorted view offsets of the chunk starts in the window: the search and the early stop see
      every chunk that starts in a piece. */
  method ViewChunkStarts(chunks: seq<int>, pieces: seq<Piece>) returns (starts: seq<int>)
    requires Ascending(chunks)
    ensures SortedBy(starts, IntLe) && multiset(starts) == multiset(AllStarts(chunks, pieces, |pieces|))
  {
    var found: seq<int> := [];
    for k := 0 to |pieces|
      invariant found == AllStarts(chunks, pieces, k)
    {
      var here := PieceStarts(chunks, pieces[k]);
      found := found + here;
    }
    SortSorts(found, IntLe);
    starts := Sort(found, IntLe);
  }

  method PieceStarts(chunks: seq<int>, p: Piece) returns (starts: seq<int>)
    requires Ascending(chunks)
    ensures starts == StartsIn(chunks, p, |chunks|)
  {
    var first := BisectLeft(chunks, p.va);
    starts := [];
    NoStarts(chunks, p, 0, first);
    for i := first to |chunks|
      invariant starts == StartsIn(chunks, p, i)
    {
      if chunks[i] >= p.va + p.length {
        NoStarts(chunks, p, i, |chunks|);
        return;
      }
      starts := starts + [p.offset + (chunks[i] - p.va)];
    }
  }

  lemma {:induction false} NoStarts(chunks: seq<int>, p: Piece, m: nat, n: nat)
    requires m <= n <= |chunks| && forall i :: m <= i < n ==> !(p.va <= chunks[i] < p.va + p.length)
    ensures StartsIn(chunks, p, n) == StartsIn(chunks, p, m)
    decreases n - m
  {
    if m < n {
      NoStarts(chunks, p, m, n - 1);
      AppendNothing(StartsIn(chunks, p, n - 1));
    }
  }

  // ---- neighbours ---------------------------------------------------------------------------------------------

  datatype Chunk = Chunk(va: int, size: int) {
    predicate Contains(a: int) { va <= a < va + size }
  }

  function ChunkVas(chunks: seq<Chunk>): (r: seq<int>)
    ensures |r| == |chunks| && forall i :: 0 <= i < |r| ==> r[i] == chunks[i].va
  {
    seq(|chunks|, i requires 0 <= i < |chunks| => chunks[i].va)
  }

  /** Chunks that follow one another without overlap. */
  ghost predicate Heap(chunks: seq<Chunk>) {
    && (forall i :: 0 <= i < |chunks| ==> chunks[i].size > 0)
    && (forall i, j :: 0 <= i < j < |chunks| ==> chunks[i].va + chunks[i].size <= chunks[j].va)
  }

  /** The chunk that holds `va`. */
  function ChunkAt(chunks: seq<Chunk>, va: int): (r: Option<Chunk>)
    ensures Heap(chunks) ==> match r
                             case Some(c) => c in chunks && c.Contains(va)
                             case None => va >= 0 ==> forall c :: c in chunks ==> !c.Contains(va)
  {
    var i := BisectRight(ChunkVas(chunks), va) - 1;
    assert Heap(chunks) ==> Ascending(ChunkVas(chunks));
    if va >= 0 && i >= 0 && chunks[i].Contains(va) then Some(chunks[i]) else None
  }

  /** The chunks on either side of `va`, the one that holds it left out. */
  function Neighbours(chunks: seq<Chunk>, va: int, holding: Option<Chunk>): (r: (Option<Chunk>, Option<Chunk>))
  {
    var i := BisectRight(ChunkVas(chunks), va);
    var below := if holding.Some? then i - 2 else i - 1;
    (if below >= 0 then Some(chunks[below]) else None, if i < |chunks| then Some(chunks[i]) else None)
  }

  /** `prev` is the highest chunk that ends at or below `va` and `next` the lowest that starts
      above it; with the holding chunk they are three consecutive chunks of the heap. */
  lemma {:induction false} NeighboursAreNearest(chunks: seq<Chunk>, va: int)
    requires Heap(chunks) && va >= 0
    ensures var (prev, next) := Neighbours(chunks, va, ChunkAt(chunks, va));
            && (prev.Some? ==> prev.value in chunks && prev.value.va + prev.value.size <= va)
            && (next.Some? ==> next.value in chunks && next.value.va > va)
            && (forall c :: c in chunks && c.va + c.size <= va ==> prev.Some? && c.va <= prev.value.va)
            && (forall c :: c in chunks && c.va > va ==> next.Some? && next.value.va <= c.va)
  {
    var i := BisectRight(ChunkVas(chunks), va);
    UpToAddress(chunks, va);
    Nearest(chunks, va, i);
    assert ChunkAt(chunks, va) == if i > 0 && chunks[i - 1].Contains(va) then Some(chunks[i - 1]) else None;
  }

  lemma {:induction false} Nearest(chunks: seq<Chunk>, va: int, i: nat)
    requires Heap(chunks) && i <= |chunks| && forall k :: 0 <= k < |chunks| ==> (k < i <==> chunks[k].va <= va)
    ensures var below := if i > 0 && chunks[i - 1].Contains(va) then i - 2 else i - 1;
            && (below >= 0 ==> chunks[below].va + chunks[below].size <= va)
            && (forall c :: c in chunks && c.va + c.size <= va ==> below >= 0 && c.va <= chunks[below].va)
            && (forall c :: c in chunks && c.va > va ==> i < |chunks| && chunks[i].va <= c.va)
  {
  }

  lemma {:induction false} UpToAddress(chunks: seq<Chunk>, va: int)
    requires Heap(chunks)
    ensures forall k :: 0 <= k < |chunks| ==> (k < BisectRight(ChunkVas(chunks), va) <==> chunks[k].va <= va)
  {
    var vas := ChunkVas(chunks);
    assert Ascending(vas);
    forall k | 0 <= k < |chunks| ensures k < BisectRight(vas, va) <==> chunks[k].va <= va {
      assert vas[k] == chunks[k].va;
    }
  }
}
