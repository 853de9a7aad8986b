/** Logs that appends can produce, the chains of superseding entries in them, and the current
    entries (analysis/record_store.py). */
module RecordHistory {
  import opened Sequences
  import opened RecordLog

  // ---- well-formed logs ---------------------------------------------------------------------------

  /** Ids are unique and an entry supersedes only an earlier one. */
  ghost predicate Log(es: seq<Entry>) {
    && (forall i, j :: 0 <= i < j < |es| ==> es[i].id != es[j].id)
    && (forall i :: 0 <= i < |es| && es[i].supersedes.Some? ==> FiledBefore(es, i, es[i].supersedes.value))
  }

  ghost predicate FiledBefore(es: seq<Entry>, i: nat, id: string)
    requires i <= |es|
  {
    exists k :: 0 <= k < i && es[k].id == id
  }

  /** Every file that can be read is a log. */
  ghost predicate Logs(files: Files) {
    forall p :: ReadFile(files, p).Ok? ==> Log(ReadFile(files, p).value)
  }

  lemma {:induction false} LogGrows(es: seq<Entry>, e: Entry)
    requires Log(es) && CheckSupersedes(Ids(es), e).None?
    ensures Log(es + [e])
  {
    var next := es + [e];
    forall i | 0 <= i < |next| && next[i].supersedes.Some?
      ensures FiledBefore(next, i, next[i].supersedes.value)
    {
      var id := next[i].supersedes.value;
      assert FiledBefore(es, if i < |es| then i else |es|, id);
      var k :| 0 <= k < i && k < |es| && es[k].id == id;
      assert next[k].id == id;
    }
    forall i | 0 <= i < |es| ensures es[i].id != e.id {
      assert es[i].id in Ids(es);
    }
  }

  lemma {:induction false} AppendKeepsLog(files: Files, e: Entry, p: string)
    requires Logs(files) && Append(files, e).Ok? && ReadFile(Added(files, e), p).Ok?
    ensures Log(ReadFile(Added(files, e), p).value)
  {
    var after := Added(files, e);
    if p == e.captureId {
      var lines := LinesOf(files, p);
      ReadPrefix(p, lines, [Parsed(e)], |lines|);
      assert ReadFile(after, p).value == ReadFile(files, p).value + [e];
      LogGrows(ReadFile(files, p).value, e);
    } else {
      assert LinesOf(after, p) == LinesOf(files, p);
      assert ReadFile(files, p).Ok?;
    }
  }

  /** Whatever is appended, in whatever order and to whatever captures, every file stays a log. */
  lemma {:induction false} AppendsKeepLogs(files: Files, batch: seq<Entry>, n: nat)
    requires n <= |batch| && Logs(files) && AppendEach(files, batch, n).Done?
    ensures Logs(AppendEach(files, batch, n).files)
  {
    if n > 0 {
      AppendsKeepLogs(files, batch, n - 1);
      var before := AppendEach(files, batch, n - 1).files;
      var after := Added(before, batch[n - 1]);
      forall p | ReadFile(after, p).Ok? ensures Log(ReadFile(after, p).value)
      {
        AppendKeepsLog(before, batch[n - 1], p);
      }
    }
  }

  lemma {:induction false} StillLogs(files: Files, batch: seq<Entry>, n: nat)
    requires n <= |batch|
    ensures Logs(files) && AppendEach(files, batch, n).Done? ==> Logs(AppendEach(files, batch, n).files)
  {
    if Logs(files) && AppendEach(files, batch, n).Done? { AppendsKeepLogs(files, batch, n); }
  }

  // ---- chains ---------------------------------------------------------------------------------------

  /** Each entry supersedes the one before it, and all are filed. */
  ghost predicate Linked(es: seq<Entry>, chain: seq<Entry>) {
    && (forall i :: 0 <= i < |chain| ==> chain[i] in es)
    && (forall i :: 0 < i < |chain| ==> chain[i].supersedes == Some(chain[i - 1].id))
  }

  /** `e` is the last filed entry that supersedes `parent`. */
  ghost predicate Newest(es: seq<Entry>, parent: string, e: Entry) {
    && e.supersedes == Some(parent)
    && exists k :: 0 <= k < |es| && es[k] == e && forall j :: k < j < |es| ==> es[j].supersedes != Some(parent)
  }

  /** Nothing filed supersedes `id`. */
  ghost predicate Tip(es: seq<Entry>, id: string) {
    forall e :: e in es ==> e.supersedes != Some(id)
  }

  ghost predicate Forward(es: seq<Entry>, chain: seq<Entry>, k: nat) {
    forall i :: k < i < |chain| ==> Newest(es, chain[i - 1].id, chain[i])
  }

  /** The chain through `id`: from an entry that supersedes nothing to one that nothing
      supersedes, taking the newest entry at each branch after `id`. */
  ghost predicate IsHistory(es: seq<Entry>, id: string, chain: seq<Entry>) {
    && chain != [] && Linked(es, chain)
    && chain[0].supersedes.None?
    && Tip(es, chain[|chain| - 1].id)
    && exists k :: 0 <= k < |chain| && chain[k].id == id && Forward(es, chain, k)
  }

  ghost predicate At(es: seq<Entry>, i: int, id: string) { 0 <= i < |es| && es[i].id == id }

  lemma {:induction false} SameId(es: seq<Entry>, x: Entry, y: Entry)
    requires Log(es) && x in es && y in es && x.id == y.id
    ensures x == y
  {
    var i :| 0 <= i < |es| && es[i] == x;
    var j :| 0 <= j < |es| && es[j] == y;
    assert i == j;
  }

  /** Along a chain entries are filed in order. */
  lemma {:induction false} ChainAscends(es: seq<Entry>, chain: seq<Entry>, i: nat, j: nat, pi: int, pj: int)
    requires Log(es) && Linked(es, chain) && i < j < |chain|
    requires At(es, pi, chain[i].id) && At(es, pj, chain[j].id)
    ensures pi < pj
  {
    SameId(es, es[pj], chain[j]);
    assert FiledBefore(es, pj, chain[j - 1].id);
    var k :| 0 <= k < pj && es[k].id == chain[j - 1].id;
    if i < j - 1 {
      ChainAscends(es, chain, i, j - 1, pi, k);
    } else {
      assert pi == k;
    }
  }

  /** No entry occurs twice in a chain. */
  lemma {:induction false} ChainHasNoDuplicates(es: seq<Entry>, chain: seq<Entry>, i: nat, j: nat)
    requires Log(es) && Linked(es, chain) && i < j < |chain|
    ensures chain[i].id != chain[j].id
  {
    assert chain[i] in es && chain[j] in es;
    var pi :| 0 <= pi < |es| && es[pi] == chain[i];
    var pj :| 0 <= pj < |es| && es[pj] == chain[j];
    ChainAscends(es, chain, i, j, pi, pj);
  }

  lemma {:induction false} BackUnique(es: seq<Entry>, c: seq<Entry>, d: seq<Entry>, k: nat, m: nat)
    requires Log(es) && Linked(es, c) && Linked(es, d) && k < |c| && m < |d| && c[k].id == d[m].id
    requires c[0].supersedes.None? && d[0].supersedes.None?
    ensures k == m && forall i :: 0 <= i <= k ==> c[i] == d[i]
  {
    SameId(es, c[k], d[m]);
    assert k > 0 ==> c[k].supersedes == Some(c[k - 1].id);
    assert m > 0 ==> d[m].supersedes == Some(d[m - 1].id);
    if k > 0 && m > 0 { BackUnique(es, c, d, k - 1, m - 1); }
  }

  lemma {:induction false} NewestUnique(es: seq<Entry>, parent: string, x: Entry, y: Entry)
    requires Newest(es, parent, x) && Newest(es, parent, y)
    ensures x == y
  {
    var i :| 0 <= i < |es| && es[i] == x && forall j :: i < j < |es| ==> es[j].supersedes != Some(parent);
    var j :| 0 <= j < |es| && es[j] == y && forall i :: j < i < |es| ==> es[i].supersedes != Some(parent);
    assert i == j;
  }

  lemma {:induction false} ForwardUnique(es: seq<Entry>, c: seq<Entry>, d: seq<Entry>, k: nat, n: nat)
    requires k <= n && n < |c| && Linked(es, c) && Linked(es, d)
    requires k < |d| && c[k] == d[k] && Forward(es, c, k) && Forward(es, d, k) && Tip(es, d[|d| - 1].id)
    ensures n < |d| && c[n] == d[n]
  {
    if k < n {
      ForwardUnique(es, c, d, k, n - 1);
      assert c[n].supersedes == Some(c[n - 1].id);
      assert Newest(es, c[n - 1].id, c[n]);
      assert c[n] in es;
      if n < |d| {
        assert Newest(es, d[n - 1].id, d[n]);
        NewestUnique(es, c[n - 1].id, c[n], d[n]);
      }
    }
  }

  /** An entry has one history. */
  lemma {:induction false} HistoryUnique(es: seq<Entry>, id: string, c: seq<Entry>, d: seq<Entry>)
    requires Log(es) && IsHistory(es, id, c) && IsHistory(es, id, d)
    ensures c == d
  {
    var k :| 0 <= k < |c| && c[k].id == id && Forward(es, c, k);
    var m :| 0 <= m < |d| && d[m].id == id && Forward(es, d, m);
    BackUnique(es, c, d, k, m);
    ForwardUnique(es, c, d, k, |c| - 1);
    ForwardUnique(es, d, c, k, |d| - 1);
    forall i | k <= i < |c| ensures c[i] == d[i] { ForwardUnique(es, c, d, k, i); }
  }

  /** Entries that follow `id` in its history share that history: whichever of them is asked
      for, the same chain comes back. */
  lemma {:induction false} LaterEntriesShareHistory(es: seq<Entry>, id: string, c: seq<Entry>, d: seq<Entry>, k: nat,
                                                    j: nat)
    requires Log(es) && IsHistory(es, id, c) && k <= j < |c| && c[k].id == id
    requires IsHistory(es, c[j].id, d)
    ensures c == d
  {
    var m :| 0 <= m < |c| && c[m].id == id && Forward(es, c, m);
    if m != k { ChainHasNoDuplicates(es, c, if m < k then m else k, if m < k then k else m); }
    assert Forward(es, c, j);
    HistoryUnique(es, c[j].id, c, d);
  }

  // ---- walking a chain ----------------------------------------------------------------------------------

  function ById(es: seq<Entry>): map<string, Entry> {
    if es == [] then map[] else ById(es[..|es| - 1])[es[|es| - 1].id := es[|es| - 1]]
  }

  ghost predicate Indexes(byId: map<string, Entry>, es: seq<Entry>) {
    && byId.Keys == Ids(es)
    && forall id :: id in byId ==> byId[id] in es && byId[id].id == id
  }

  lemma {:induction false} ByIdIndexes(es: seq<Entry>)
    ensures Indexes(ById(es), es)
  {
    if es != [] {
      SplitLast(es);
      ByIdIndexes(es[..|es| - 1]);
      IdsSnoc(es[..|es| - 1], es[|es| - 1]);
    }
  }

  ghost function Find(es: seq<Entry>, id: string): (i: nat)
    requires id in Ids(es)
    ensures At(es, i, id)
  {
    var i: nat :| i < |es| && es[i].id == id;
    i
  }

  ghost function ParentBefore(es: seq<Entry>, at: nat): (i: nat)
    requires Log(es) && at < |es| && es[at].supersedes.Some?
    ensures i < at && At(es, i, es[at].supersedes.value)
  {
    assert FiledBefore(es, at, es[at].supersedes.value);
    var i: nat :| i < at && es[i].id == es[at].supersedes.value;
    i
  }

  ghost function ChildAfter(es: seq<Entry>, at: nat, child: Entry): (i: nat)
    requires Log(es) && at < |es| && child in es && child.supersedes == Some(es[at].id)
    ensures at < i && At(es, i, child.id)
  {
    var i: nat :| i < |es| && es[i] == child;
    assert FiledBefore(es, i, es[at].id);
    i
  }

  /** The walk back so far, the entry itself first, with the id to follow next. */
  ghost predicate BackSoFar(es: seq<Entry>, id: string, back: seq<Entry>, next: Option<string>) {
    && (forall i :: 0 <= i < |back| ==> back[i] in es)
    && (forall i :: 0 < i < |back| ==> back[i - 1].supersedes == Some(back[i].id))
    && (if back == [] then next == Some(id) else back[0].id == id && next == back[|back| - 1].supersedes)
  }

  ghost predicate IsBack(es: seq<Entry>, id: string, chain: seq<Entry>) {
    chain != [] && Linked(es, chain) && chain[0].supersedes.None? && chain[|chain| - 1].id == id
  }

  function Reversed(s: seq<Entry>): (r: seq<Entry>) {
    seq(|s|, i requires 0 <= i < |s| => s[|s| - 1 - i])
  }

  lemma {:induction false} BackDone(es: seq<Entry>, id: string, back: seq<Entry>)
    requires BackSoFar(es, id, back, None)
    ensures IsBack(es, id, Reversed(back))
  {
    var chain := Reversed(back);
    forall i | 0 < i < |chain| ensures chain[i].supersedes == Some(chain[i - 1].id) {
      var j := |back| - i;
      assert chain[i] == back[j - 1] && chain[i - 1] == back[j];
    }
  }

  function Last(id: string, chain: seq<Entry>): string { if chain == [] then id else chain[|chain| - 1].id }

  /** The walk forward so far: the newest child of `id`, its newest child, and so on. */
  ghost predicate ForwardSoFar(es: seq<Entry>, id: string, chain: seq<Entry>) {
    && (forall i :: 0 <= i < |chain| ==> chain[i] in es)
    && (forall i :: 0 <= i < |chain| ==> Newest(es, Last(id, chain[..i]), chain[i]))
  }

  lemma {:induction false} ForwardMore(es: seq<Entry>, id: string, chain: seq<Entry>, e: Entry)
    requires ForwardSoFar(es, id, chain) && e in es && Newest(es, Last(id, chain), e)
    ensures ForwardSoFar(es, id, chain + [e])
  {
    var next := chain + [e];
    forall i | 0 <= i < |next| ensures Newest(es, Last(id, next[..i]), next[i]) {
      assert next[..i] == chain[..i];
      TakeAll(chain);
      if i < |chain| { assert Newest(es, Last(id, chain[..i]), chain[i]); }
    }
  }

  lemma {:induction false} SelectOneMore(init: seq<Entry>, last: Entry, keep: Entry -> bool)
    ensures Select(init + [last], keep) == if keep(last) then Select(init, keep) + [last] else Select(init, keep)
  {
    PrefixOf(init, [last]);
    AppendNothing(Select(init, keep));
  }

  /** The selection's last entry stands at `k`, and none after it is kept. */
  ghost predicate LastKept(es: seq<Entry>, keep: Entry -> bool, k: nat, last: Entry) {
    k < |es| && es[k] == last && forall j :: k < j < |es| ==> !keep(es[j])
  }

  lemma {:induction false} LastSelected(es: seq<Entry>, keep: Entry -> bool) returns (k: nat)
    requires Select(es, keep) != []
    ensures LastKept(es, keep, k, Select(es, keep)[|Select(es, keep)| - 1])
  {
    var init, last := es[..|es| - 1], es[|es| - 1];
    SplitLast(es);
    SelectOneMore(init, last, keep);
    if keep(last) {
      k := |init|;
    } else {
      k := LastSelected(init, keep);
      StillLast(init, last, keep, k, Select(init, keep)[|Select(init, keep)| - 1]);
    }
  }

  lemma {:induction false} StillLast(init: seq<Entry>, e: Entry, keep: Entry -> bool, k: nat, last: Entry)
    requires LastKept(init, keep, k, last) && !keep(e)
    ensures LastKept(init + [e], keep, k, last)
  {
    var es := init + [e];
    forall j | k < j < |es| ensures !keep(es[j]) {
      if j < |init| { assert es[j] == init[j]; }
    }
  }

  function Children(es: seq<Entry>, parent: string): seq<Entry> {
    Select(es, (e: Entry) => e.supersedes == Some(parent))
  }

  lemma {:induction false} NewestChild(es: seq<Entry>, parent: string)
    ensures var r := Children(es, parent);
            if r == [] then Tip(es, parent) else Newest(es, parent, r[|r| - 1]) && r[|r| - 1] in es
  {
    var isChild := (e: Entry) => e.supersedes == Some(parent);
    var r := Select(es, isChild);
    if r != [] {
      var k := LastSelected(es, isChild);
      assert r[|r| - 1] in r;
    } else {
      forall e | e in es ensures !isChild(e) { assert e !in r; }
    }
  }

  lemma {:induction false} ForwardStep(es: seq<Entry>, id: string, chain: seq<Entry>, at: nat, e: Entry)
    returns (next: nat)
    requires Log(es) && ForwardSoFar(es, id, chain) && At(es, at, Last(id, chain))
    requires var r := Children(es, Last(id, chain)); r != [] && e == r[|r| - 1]
    ensures ForwardSoFar(es, id, chain + [e]) && Last(id, chain + [e]) == e.id
    ensures at < next && At(es, next, e.id)
  {
    NewestChild(es, Last(id, chain));
    ForwardMore(es, id, chain, e);
    next := ChildAfter(es, at, e);
  }

  lemma {:induction false} HistoryJoins(es: seq<Entry>, id: string, back: seq<Entry>, rest: seq<Entry>)
    requires IsBack(es, id, back) && ForwardSoFar(es, id, rest) && Tip(es, Last(id, rest))
    ensures IsHistory(es, id, back + rest)
  {
    JoinGoesForward(es, id, back, rest);
    var chain, k := back + rest, |back| - 1;
    assert chain[k].id == id;
    forall i | 0 < i < |chain| ensures chain[i].supersedes == Some(chain[i - 1].id) {
      if i > k { assert Newest(es, chain[i - 1].id, chain[i]); }
    }
    forall i | 0 <= i < |chain| ensures chain[i] in es {
      if i > k { assert chain[i] == rest[i - |back|]; }
    }
  }

  lemma {:induction false} JoinGoesForward(es: seq<Entry>, id: string, back: seq<Entry>, rest: seq<Entry>)
    requires IsBack(es, id, back) && ForwardSoFar(es, id, rest)
    ensures Forward(es, back + rest, |back| - 1)
  {
    var chain := back + rest;
    forall i | |back| - 1 < i < |chain| ensures Newest(es, chain[i - 1].id, chain[i]) {
      JoinedAt(es, id, back, rest, i - |back|);
    }
  }

  lemma {:induction false} JoinedAt(es: seq<Entry>, id: string, back: seq<Entry>, rest: seq<Entry>, j: nat)
    requires back != [] && back[|back| - 1].id == id && ForwardSoFar(es, id, rest) && j < |rest|
    ensures var chain := back + rest; Newest(es, chain[|back| + j - 1].id, chain[|back| + j])
  {
    assert Newest(es, Last(id, rest[..j]), rest[j]);
    LastOfJoin(id, back, rest, j);
  }

  lemma {:induction false} LastOfJoin(id: string, back: seq<Entry>, rest: seq<Entry>, j: nat)
    requires back != [] && back[|back| - 1].id == id && j < |rest|
    ensures Last(id, rest[..j]) == (back + rest)[|back| + j - 1].id
  {
  }

  // ---- current entries -------------------------------------------------------------------------------

  function Select(es: seq<Entry>, keep: Entry -> bool): (r: seq<Entry>)
    ensures forall e :: e in r <==> e in es && keep(e)
  {
    if es == [] then []
    else
      assert es == es[..|es| - 1] + [es[|es| - 1]];
      Select(es[..|es| - 1], keep) + if keep(es[|es| - 1]) then [es[|es| - 1]] else []
  }

  lemma {:induction false} SelectSame(es: seq<Entry>, f: Entry -> bool, g: Entry -> bool)
    requires forall e :: e in es ==> f(e) == g(e)
    ensures Select(es, f) == Select(es, g)
  {
    if es != [] { SelectSame(es[..|es| - 1], f, g); }
  }

  /** Ids that entries say they supersede; an empty id counts as superseding nothing. */
  function Superseded(es: seq<Entry>): set<string> {
    set e | e in es && e.supersedes.Some? && e.supersedes.value != "" :: e.supersedes.value
  }

  predicate OfKind(e: Entry, kind: Option<string>) { kind.None? || e.kind == kind.value }

  /** The current entries, of one kind or of all. */
  function Latest(es: seq<Entry>, kind: Option<string>): seq<Entry> {
    var superseded := Superseded(es);
    Select(es, (e: Entry) => e.id !in superseded && e.kind != RETRACTION && OfKind(e, kind))
  }

  /** Nothing filed supersedes the entry, unless its id is empty; it is not a retraction, and of the kind
      asked for, if any. */
  ghost predicate IsCurrent(es: seq<Entry>, e: Entry, kind: Option<string>) {
    && (e.id != "" ==> forall x :: x in es ==> x.supersedes != Some(e.id))
    && e.kind != "retraction" && (kind.Some? ==> e.kind == kind.value)
  }

  ghost function CurrentMarks(es: seq<Entry>, kind: Option<string>): (r: seq<bool>)
    ensures |r| == |es| && forall i :: 0 <= i < |r| ==> r[i] == IsCurrent(es, es[i], kind)
  {
    seq(|es|, i requires 0 <= i < |es| => IsCurrent(es, es[i], kind))
  }

  /** `out` are the entries at `places`. */
  ghost predicate TakenFrom(out: seq<Entry>, es: seq<Entry>, places: seq<nat>) {
    |out| == |places| && forall k :: 0 <= k < |out| ==> places[k] < |es| && out[k] == es[places[k]]
  }

  lemma {:induction false} OneMoreTaken(out: seq<Entry>, es: seq<Entry>, places: seq<nat>, i: nat)
    requires TakenFrom(out, es, places) && i < |es|
    ensures TakenFrom(out + [es[i]], es, places + [i])
  {
    var more, next := out + [es[i]], places + [i];
    forall k | 0 <= k < |more| ensures next[k] < |es| && more[k] == es[next[k]] {
      if k < |out| { assert next[k] == places[k] && more[k] == out[k]; }
    }
  }

  lemma {:induction false} SelectNext(es: seq<Entry>, keep: Entry -> bool, n: nat)
    requires 0 < n <= |es|
    ensures Select(es[..n], keep)
         == if keep(es[n - 1]) then Select(es[..n - 1], keep) + [es[n - 1]] else Select(es[..n - 1], keep)
  {
    TakeNext(es, n - 1);
    SelectOneMore(es[..n - 1], es[n - 1], keep);
  }

  /** `out` are the marked entries among the first `n`. */
  ghost predicate TakenTo(out: seq<Entry>, es: seq<Entry>, marks: seq<bool>, n: nat, places: seq<nat>)
    requires n <= |marks|
  {
    Places(marks, n, places) && TakenFrom(out, es, places)
  }

  lemma {:induction false} TakeOne(out: seq<Entry>, es: seq<Entry>, marks: seq<bool>, n: nat, places: seq<nat>)
    requires 0 < n <= |marks| == |es| && TakenTo(out, es, marks, n - 1, places)
    ensures if marks[n - 1] then TakenTo(out + [es[n - 1]], es, marks, n, places + [n - 1])
            else TakenTo(out, es, marks, n, places)
  {
    if marks[n - 1] {
      PlaceTaken(marks, n, places);
      OneMoreTaken(out, es, places, n - 1);
    } else {
      PlaceSkipped(marks, n, places);
    }
  }

  lemma {:induction false} SelectPlaces(es: seq<Entry>, keep: Entry -> bool, marks: seq<bool>, n: nat)
    returns (places: seq<nat>)
    requires n <= |es| == |marks| && forall i :: 0 <= i < |es| ==> marks[i] == keep(es[i])
    ensures TakenTo(Select(es[..n], keep), es, marks, n, places)
  {
    if n == 0 {
      places := [];
    } else {
      places := SelectPlaces(es, keep, marks, n - 1);
      SelectNext(es, keep, n);
      TakeOne(Select(es[..n - 1], keep), es, marks, n, places);
      if marks[n - 1] { places := places + [n - 1]; }
    }
  }

  lemma {:induction false} CurrentIsKept(es: seq<Entry>, e: Entry, kind: Option<string>)
    ensures IsCurrent(es, e, kind) <==> e.id !in Superseded(es) && e.kind != RETRACTION && OfKind(e, kind)
  {
    SupersededIsNoTip(es, e.id);
  }

  /** The latest entries are the current ones of the kind, in file order, each as often as it is filed. */
  lemma {:induction false} LatestAreCurrent(es: seq<Entry>, kind: Option<string>)
    ensures exists places: seq<nat> :: TakenTo(Latest(es, kind), es, CurrentMarks(es, kind), |es|, places)
  {
    var superseded := Superseded(es);
    var keep := (e: Entry) => e.id !in superseded && e.kind != RETRACTION && OfKind(e, kind);
    forall i | 0 <= i < |es| ensures CurrentMarks(es, kind)[i] == keep(es[i]) { CurrentIsKept(es, es[i], kind); }
    var places := SelectPlaces(es, keep, CurrentMarks(es, kind), |es|);
    TakeAll(es);
    assert Latest(es, kind) == Select(es, keep);
  }

  /** Chain tips that are not retractions, in file order: what `Latest` is meant to be. */
  ghost function Tips(es: seq<Entry>, kind: Option<string>): seq<Entry> {
    Select(es, (e: Entry) => Tip(es, e.id) && e.kind != RETRACTION && OfKind(e, kind))
  }

  lemma {:induction false} SupersededIsNoTip(es: seq<Entry>, id: string)
    ensures id in Superseded(es) <==> !Tip(es, id) && id != ""
  {
  }

  /** An entry with an empty id, not a retraction, that another entry supersedes. */
  ghost predicate EmptyIdSuperseded(es: seq<Entry>, kind: Option<string>) {
    exists e :: e in es && e.id == "" && e.kind != RETRACTION && OfKind(e, kind) && !Tip(es, "")
  }

  /** The current entries are exactly the tips that are not retractions, unless an entry with an
      empty id has been superseded: that one is still reported. */
  lemma {:induction false} LatestIsTips(es: seq<Entry>, kind: Option<string>)
    ensures Latest(es, kind) == Tips(es, kind) <==> !EmptyIdSuperseded(es, kind)
  {
    var superseded := Superseded(es);
    var f := (e: Entry) => e.id !in superseded && e.kind != RETRACTION && OfKind(e, kind);
    var g := (e: Entry) => Tip(es, e.id) && e.kind != RETRACTION && OfKind(e, kind);
    forall e: Entry ensures f(e) == g(e) || e.id == "" { SupersededIsNoTip(es, e.id); }
    SupersededIsNoTip(es, "");
    if EmptyIdSuperseded(es, kind) {
      var e :| e in es && e.id == "" && e.kind != RETRACTION && OfKind(e, kind) && !Tip(es, "");
      assert f(e) && !g(e);
      assert e in Select(es, f) && e !in Select(es, g);
    } else {
      SelectSame(es, f, g);
    }
  }

  /** Two appends after which a superseded entry is still reported as current. */
  lemma {:induction false} SupersededYetCurrent(p: string)
    requires ValidCaptureId(p)
    ensures var e := Entry("", p, "annotation", None);
            var es := [e, Entry("b", p, "annotation", Some(""))];
            && AppendEach(map[], es, 2).Done?
            && !Tip(es, e.id) && e in Latest(es, None)
  {
    var e, x := Entry("", p, "annotation", None), Entry("b", p, "annotation", Some(""));
    var es := [e, x];
    var first := Added(map[], e);
    assert LinesOf(first, p) == [Parsed(e)];
    assert ReadLines(p, [Parsed(e)], 1) == Ok([] + [e]);
    assert [] + [e] == [e];
    assert ReadFile(first, p) == Ok([e]);
    assert Ids([e]) == {""} by { assert [e][0].id == ""; }
    assert AppendEach(map[], es, 1) == Then(Done(map[]), 0, e) == Done(first);
    assert CheckSupersedes({""}, x).None?;
    assert Append(first, x).Ok?;
    assert AppendEach(map[], es, 2) == Then(Done(first), 1, x);
    assert x in es && e in es;
    SupersededIsNoTip(es, "");
  }

  /** An entry that has left the current ones never returns, whatever is appended. */
  lemma {:induction false} NeverReturns(files: Files, batch: seq<Entry>, n: nat, p: string, kind: Option<string>,
                                        e: Entry)
    requires n <= |batch| && AppendEach(files, batch, n).Done? && ReadFile(files, p).Ok?
    requires e in ReadFile(files, p).value && e !in Latest(ReadFile(files, p).value, kind)
    ensures var after := AppendEach(files, batch, n).files;
            ReadFile(after, p).Ok? && e !in Latest(ReadFile(after, p).value, kind)
  {
    AppendEachGrows(files, batch, n);
    IdsGrow(files, AppendEach(files, batch, n).files, batch, n, p);
    var es := ReadFile(files, p).value;
    forall id | id in Superseded(es) ensures id in Superseded(es + Group(batch, n, p)) {
      var x :| x in es && x.supersedes == Some(id) && id != "";
      assert x in es + Group(batch, n, p);
    }
  }

  /** Of the entries in one history only the tip can be current (entries with an empty id apart),
      and it is unless it is a retraction. */
  lemma {:induction false} OnlyTheTipIsCurrent(es: seq<Entry>, id: string, chain: seq<Entry>, i: nat)
    requires IsHistory(es, id, chain) && i < |chain| && chain[i].id != ""
    ensures chain[i] in Latest(es, None) <==> i == |chain| - 1 && chain[i].kind != RETRACTION
  {
    SupersededIsNoTip(es, chain[i].id);
    if i < |chain| - 1 { assert chain[i + 1] in es && chain[i + 1].supersedes == Some(chain[i].id); }
  }
}
