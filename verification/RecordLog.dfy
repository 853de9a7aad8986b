/** What appending to the analysis log means: one file of entries per capture, each entry checked
    against the ids already filed, and what a batch adds (analysis/record_store.py,
    analysis/record.py). */
module RecordLog {
  import opened Sequences

  datatype Entry = Entry(id: string, captureId: string, kind: string, supersedes: Option<string>)

  const RETRACTION := "retraction"

  /** A line of a capture's file: an entry, whitespace, or text that does not parse. */
  datatype Line = Parsed(entry: Entry) | Blank | Corrupt

  datatype Error = InvalidCaptureId(captureId: string)
                 | CorruptRecord(captureId: string, line: nat)
                 | DuplicateEntryId(id: string)
                 | UnknownSupersedes(id: string, captureId: string)
                 | EntryNotFound(captureId: string, id: string)

  datatype Result<+T> = Ok(value: T) | Err(error: Error)

  /** The record's files by capture id; a missing file reads as empty. */
  type Files = map<string, seq<Line>>

  // ---- capture ids ------------------------------------------------------------------------------

  predicate IdChar(c: char) {
    'A' <= c <= 'Z' || 'a' <= c <= 'z' || '0' <= c <= '9' || c in "_.-:"
  }

  predicate IdChars(s: string, n: nat)
    requires n <= |s|
  {
    n == 0 || (IdChar(s[n - 1]) && IdChars(s, n - 1))
  }

  /** 1 to 128 identifier characters; the pattern's end anchor also admits one final newline. */
  predicate ValidCaptureId(s: string) {
    var n := if s != [] && s[|s| - 1] == '\n' then |s| - 1 else |s|;
    1 <= n <= 128 && IdChars(s, n)
  }

  // ---- reading ------------------------------------------------------------------------------------

  function LinesOf(files: Files, captureId: string): seq<Line> {
    if captureId in files then files[captureId] else []
  }

  /** The entries of the first `n` lines, in file order; the first corrupt line is an error. */
  function ReadLines(captureId: string, lines: seq<Line>, n: nat): (r: Result<seq<Entry>>)
    requires n <= |lines|
  {
    if n == 0 then Ok([])
    else
      match ReadLines(captureId, lines, n - 1)
      case Err(e) => Err(e)
      case Ok(before) =>
        match lines[n - 1]
        case Corrupt => Err(CorruptRecord(captureId, n))
        case Blank => Ok(before)
        case Parsed(e) => Ok(before + [e])
  }

  function ReadFile(files: Files, captureId: string): Result<seq<Entry>> {
    ReadLines(captureId, LinesOf(files, captureId), |LinesOf(files, captureId)|)
  }

  function Ids(entries: seq<Entry>): set<string> { set i | 0 <= i < |entries| :: entries[i].id }

  function Lines(entries: seq<Entry>): (r: seq<Line>)
    ensures |r| == |entries| && forall i :: 0 <= i < |r| ==> r[i] == Parsed(entries[i])
  {
    seq(|entries|, i requires 0 <= i < |entries| => Parsed(entries[i]))
  }

  // ---- appending one entry ------------------------------------------------------------------------

  /** Refuses a duplicate id or an unknown parent. */
  function CheckSupersedes(existing: set<string>, e: Entry): Option<Error> {
    if e.id in existing then Some(DuplicateEntryId(e.id))
    else if e.supersedes.Some? && e.supersedes.value !in existing
    then Some(UnknownSupersedes(e.supersedes.value, e.captureId))
    else None
  }

  /** Appending a single entry: the reference the batch is compared with. */
  function Append(files: Files, e: Entry): Result<Files> {
    if !ValidCaptureId(e.captureId) then Err(InvalidCaptureId(e.captureId))
    else
      match ReadFile(files, e.captureId)
      case Err(error) => Err(error)
      case Ok(entries) =>
        match CheckSupersedes(Ids(entries), e)
        case Some(error) => Err(error)
        case None => Ok(Added(files, e))
  }

  function Added(files: Files, e: Entry): Files {
    files[e.captureId := LinesOf(files, e.captureId) + [Parsed(e)]]
  }

  /** How a sequence of appends ends: with these files, or at the first entry that fails. */
  datatype Outcome = Done(files: Files) | Failed(at: nat, error: Error) {
    function Failure(): Option<(nat, Error)> { if Done? then None else Some((at, error)) }
  }

  /** What the first `n` single appends of a batch, one after the other, arrive at. */
  function AppendEach(files: Files, batch: seq<Entry>, n: nat): Outcome
    requires n <= |batch|
  {
    if n == 0 then Done(files) else Then(AppendEach(files, batch, n - 1), n - 1, batch[n - 1])
  }

  function Then(before: Outcome, at: nat, e: Entry): Outcome {
    match before
    case Failed(_, _) => before
    case Done(files) =>
      match Append(files, e)
      case Err(error) => Failed(at, error)
      case Ok(after) => Done(after)
  }

  lemma {:induction false} FailsForGood(files: Files, batch: seq<Entry>, m: nat, n: nat)
    requires m <= n <= |batch| && AppendEach(files, batch, m).Failed?
    ensures AppendEach(files, batch, n) == AppendEach(files, batch, m)
    decreases n - m
  {
    if m < n { FailsForGood(files, batch, m, n - 1); }
  }

  /** With every capture id before `n` valid and the one at `n` not, the batch fails where its first `n`
      entries do, or else at `n`. */
  lemma {:induction false} CheckSettles(files: Files, batch: seq<Entry>, n: nat)
    requires n <= |batch| && (n < |batch| ==> !ValidCaptureId(batch[n].captureId))
    ensures var all, first := AppendEach(files, batch, |batch|).Failure(), AppendEach(files, batch, n).Failure();
            all == if first.Some? || n == |batch| then first else Some((n, InvalidCaptureId(batch[n].captureId)))
  {
    if AppendEach(files, batch, n).Failed? {
      FailsForGood(files, batch, n, |batch|);
    } else if n < |batch| {
      FailsForGood(files, batch, n + 1, |batch|);
    }
  }

  // ---- what a batch adds to each file ---------------------------------------------------------------

  /** The entries for capture `p` among the first `n` of a batch, in batch order. */
  function Group(batch: seq<Entry>, n: nat, p: string): seq<Entry>
    requires n <= |batch|
  {
    if n == 0 then []
    else Group(batch, n - 1, p) + if batch[n - 1].captureId == p then [batch[n - 1]] else []
  }

  function Captures(batch: seq<Entry>, n: nat): set<string>
    requires n <= |batch|
  {
    if n == 0 then {} else Captures(batch, n - 1) + {batch[n - 1].captureId}
  }

  /** `after` is `files` with each capture's group of the batch appended to its file. */
  ghost predicate Grown(files: Files, after: Files, batch: seq<Entry>, n: nat)
    requires n <= |batch|
  {
    && after.Keys == files.Keys + Captures(batch, n)
    && forall p :: p in after ==> after[p] == LinesOf(files, p) + Lines(Group(batch, n, p))
  }

  lemma {:induction false} GroupOutside(batch: seq<Entry>, n: nat, p: string)
    requires n <= |batch|
    ensures p !in Captures(batch, n) <==> Group(batch, n, p) == []
  {
    if n > 0 { GroupOutside(batch, n - 1, p); }
  }

  lemma {:induction false} GrownLines(files: Files, after: Files, batch: seq<Entry>, n: nat, p: string)
    requires n <= |batch| && Grown(files, after, batch, n)
    ensures LinesOf(after, p) == LinesOf(files, p) + Lines(Group(batch, n, p))
  {
    GroupOutside(batch, n, p);
  }

  lemma {:induction false} LinesSnoc(x: seq<Line>, g: seq<Entry>, e: Entry)
    ensures x + Lines(g + [e]) == (x + Lines(g)) + [Parsed(e)]
  {
  }

  lemma {:induction false} GrownMore(files: Files, before: Files, after: Files, batch: seq<Entry>, n: nat)
    requires 0 < n <= |batch| && Grown(files, before, batch, n - 1) && after == Added(before, batch[n - 1])
    ensures Grown(files, after, batch, n)
  {
    forall p | p in after ensures after[p] == LinesOf(files, p) + Lines(Group(batch, n, p)) {
      GrownFile(files, before, after, batch, n, p);
    }
  }

  lemma {:induction false} GrownFile(files: Files, before: Files, after: Files, batch: seq<Entry>, n: nat, p: string)
    requires 0 < n <= |batch| && Grown(files, before, batch, n - 1) && after == Added(before, batch[n - 1])
    requires p in after
    ensures after[p] == LinesOf(files, p) + Lines(Group(batch, n, p))
  {
    var e := batch[n - 1];
    GrownLines(files, before, batch, n - 1, p);
    if p == e.captureId {
      LinesSnoc(LinesOf(files, p), Group(batch, n - 1, p), e);
    } else {
      AppendNothing(Group(batch, n - 1, p));
    }
  }

  lemma {:induction false} AppendEachGrows(files: Files, batch: seq<Entry>, n: nat)
    requires n <= |batch| && AppendEach(files, batch, n).Done?
    ensures Grown(files, AppendEach(files, batch, n).files, batch, n)
  {
    GrownUpTo(files, batch, n);
  }

  ghost predicate GrownAt(files: Files, batch: seq<Entry>, n: nat)
    requires n <= |batch|
  {
    AppendEach(files, batch, n).Done? ==> Grown(files, AppendEach(files, batch, n).files, batch, n)
  }

  lemma {:induction false} GrownUpTo(files: Files, batch: seq<Entry>, n: nat)
    requires n <= |batch|
    ensures GrownAt(files, batch, n)
  {
    if n == 0 {
      NothingGrown(files, batch, n);
    } else {
      GrownUpTo(files, batch, n - 1);
      NextGrows(files, batch, n);
    }
  }

  lemma {:induction false} NothingGrown(files: Files, batch: seq<Entry>, n: nat)
    requires n == 0
    ensures GrownAt(files, batch, n)
  {
  }

  lemma {:induction false} NextGrows(files: Files, batch: seq<Entry>, n: nat)
    requires 0 < n <= |batch| && GrownAt(files, batch, n - 1)
    ensures GrownAt(files, batch, n)
  {
    if AppendEach(files, batch, n).Done? {
      ThenGrows(files, AppendEach(files, batch, n - 1), batch, n);
    }
  }

  lemma {:induction false} ThenAdds(before: Outcome, at: nat, e: Entry)
    requires before.Done? && Then(before, at, e).Done?
    ensures Then(before, at, e).files == Added(before.files, e)
  {
  }

  lemma {:induction false} ThenGrows(files: Files, before: Outcome, batch: seq<Entry>, n: nat)
    requires 0 < n <= |batch| && before.Done? && Grown(files, before.files, batch, n - 1)
    requires Then(before, n - 1, batch[n - 1]).Done?
    ensures Grown(files, Then(before, n - 1, batch[n - 1]).files, batch, n)
  {
    ThenAdds(before, n - 1, batch[n - 1]);
    GrownMore(files, before.files, Then(before, n - 1, batch[n - 1]).files, batch, n);
  }

  /** Files grown the same way are the same. */
  lemma {:induction false} GrownUnique(files: Files, x: Files, y: Files, batch: seq<Entry>, n: nat)
    requires n <= |batch| && Grown(files, x, batch, n) && Grown(files, y, batch, n)
    ensures x == y
  {
    assert x.Keys == y.Keys;
  }

  lemma {:induction false} ReadGrown(captureId: string, lines: seq<Line>, g: seq<Entry>, k: nat)
    requires k <= |g|
    ensures ReadLines(captureId, lines + Lines(g), |lines| + k)
         == match ReadLines(captureId, lines, |lines|)
            case Err(e) => Err(e)
            case Ok(entries) => Ok(entries + g[..k])
  {
    if k == 0 {
      ReadPrefix(captureId, lines, Lines(g), |lines|);
      if ReadLines(captureId, lines, |lines|).Ok? { AppendNothing(ReadLines(captureId, lines, |lines|).value); }
    } else {
      ReadGrown(captureId, lines, g, k - 1);
      assert (lines + Lines(g))[|lines| + k - 1] == Parsed(g[k - 1]);
      if ReadLines(captureId, lines, |lines|).Ok? {
        var entries := ReadLines(captureId, lines, |lines|).value;
        assert entries + g[..k] == (entries + g[..k - 1]) + [g[k - 1]];
      }
    }
  }

  lemma {:induction false} ReadPrefix(captureId: string, lines: seq<Line>, more: seq<Line>, n: nat)
    requires n <= |lines|
    ensures ReadLines(captureId, lines + more, n) == ReadLines(captureId, lines, n)
  {
    if n > 0 { ReadPrefix(captureId, lines, more, n - 1); }
  }

  /** While a batch is checked, a capture's ids are those of its file and of its group so far. */
  lemma {:induction false} IdsGrow(files: Files, after: Files, batch: seq<Entry>, n: nat, p: string)
    requires n <= |batch| && Grown(files, after, batch, n)
    ensures ReadFile(after, p) == match ReadFile(files, p)
                                  case Err(e) => Err(e)
                                  case Ok(entries) => Ok(entries + Group(batch, n, p))
  {
    GrownLines(files, after, batch, n, p);
    ReadAllGrown(p, LinesOf(files, p), Group(batch, n, p), LinesOf(after, p));
  }

  lemma {:induction false} ReadAllGrown(captureId: string, lines: seq<Line>, g: seq<Entry>, all: seq<Line>)
    requires all == lines + Lines(g)
    ensures ReadLines(captureId, all, |all|) == match ReadLines(captureId, lines, |lines|)
                                                case Err(e) => Err(e)
                                                case Ok(entries) => Ok(entries + g)
  {
    ReadGrown(captureId, lines, g, |g|);
    TakeAll(g);
    assert |all| == |lines| + |g|;
  }

  // ---- grouping and writing a batch -------------------------------------------------------------------

  ghost predicate GroupsOf(batch: seq<Entry>, n: nat, groups: map<string, seq<Entry>>)
    requires n <= |batch|
  {
    forall p :: p in groups ==> groups[p] == Group(batch, n, p)
  }

  lemma {:induction false} GroupsNext(batch: seq<Entry>, n: nat, groups: map<string, seq<Entry>>)
    requires n < |batch| && groups.Keys == Captures(batch, n) && GroupsOf(batch, n, groups)
    ensures var p := batch[n].captureId;
            GroupsOf(batch, n + 1, groups[p := (if p in groups then groups[p] else []) + [batch[n]]])
  {
    var p := batch[n].captureId;
    GroupOutside(batch, n, p);
    forall q | q in groups && q != p ensures groups[q] == Group(batch, n + 1, q) {
      AppendNothing(groups[q]);
    }
  }

  /** The groups of the captures in `done` have been written, no other file has changed. */
  ghost predicate Written(before: Files, now: Files, batch: seq<Entry>, done: set<string>) {
    && now.Keys == before.Keys + done
    && forall p :: p in now ==> now[p] == WrittenLines(before, batch, p, p in done)
  }

  function WrittenLines(before: Files, batch: seq<Entry>, p: string, written: bool): seq<Line> {
    LinesOf(before, p) + if written then Lines(Group(batch, |batch|, p)) else []
  }

  lemma {:induction false} NothingWritten(files: Files, batch: seq<Entry>, all: set<string>)
    ensures Written(files, files, batch, all - all)
  {
    forall p | p in files ensures files[p] == WrittenLines(files, batch, p, false) {
      AppendNothing(files[p]);
    }
  }

  lemma {:induction false} WriteNext(before: Files, now: Files, batch: seq<Entry>, all: set<string>,
                                     left: set<string>, p: string)
    requires left <= all && p in left && Written(before, now, batch, all - left)
    ensures Written(before, now[p := LinesOf(now, p) + Lines(Group(batch, |batch|, p))], batch, all - (left - {p}))
  {
    AppendNothing(LinesOf(before, p));
    assert all - (left - {p}) == (all - left) + {p};
  }

  lemma {:induction false} AllWritten(before: Files, now: Files, batch: seq<Entry>)
    requires Written(before, now, batch, Captures(batch, |batch|))
    requires AppendEach(before, batch, |batch|).Done?
    ensures now == AppendEach(before, batch, |batch|).files
  {
    WrittenIsGrown(before, now, batch);
    AppendEachGrows(before, batch, |batch|);
    GrownUnique(before, now, AppendEach(before, batch, |batch|).files, batch, |batch|);
  }

  lemma {:induction false} WrittenIsGrown(before: Files, now: Files, batch: seq<Entry>)
    requires Written(before, now, batch, Captures(batch, |batch|))
    ensures Grown(before, now, batch, |batch|)
  {
    forall p | p in now ensures now[p] == LinesOf(before, p) + Lines(Group(batch, |batch|, p)) {
      assert now[p] == WrittenLines(before, batch, p, p in Captures(batch, |batch|));
      NoLines(batch, p);
    }
  }

  lemma {:induction false} NoLines(batch: seq<Entry>, p: string)
    ensures p !in Captures(batch, |batch|) ==> Lines(Group(batch, |batch|, p)) == []
  {
    GroupOutside(batch, |batch|, p);
  }

  // ---- one step of the check -----------------------------------------------------------------------

  lemma {:induction false} ReadFails(files: Files, batch: seq<Entry>, n: nat)
    requires n < |batch| && ValidCaptureId(batch[n].captureId)
    requires AppendEach(files, batch, n).Done? && ReadFile(files, batch[n].captureId).Err?
    ensures AppendEach(files, batch, n + 1) == Failed(n, ReadFile(files, batch[n].captureId).error)
  {
    AppendEachGrows(files, batch, n);
    IdsGrow(files, AppendEach(files, batch, n).files, batch, n, batch[n].captureId);
  }

  /** The first `n` entries pass, and `known` holds the ids of each of their captures. */
  ghost predicate Passed(files: Files, batch: seq<Entry>, n: nat, known: map<string, set<string>>)
    requires n <= |batch|
  {
    && AppendEach(files, batch, n).Done?
    && known.Keys == Captures(batch, n)
    && AllKnown(files, batch, n, known)
  }

  lemma {:induction false} LearnIds(files: Files, batch: seq<Entry>, n: nat, p: string, known: map<string, set<string>>)
    requires n <= |batch| && p !in Captures(batch, n) && ReadFile(files, p).Ok?
    requires AllKnown(files, batch, n, known)
    ensures AllKnown(files, batch, n, known[p := Ids(ReadFile(files, p).value)])
  {
    GroupOutside(batch, n, p);
    AppendNothing(ReadFile(files, p).value);
  }

  lemma {:induction false} FirstOfCapture(files: Files, batch: seq<Entry>, i: nat, n: nat,
                                          known: map<string, set<string>>)
    requires i < n <= |batch| && ValidCaptureId(batch[i].captureId)
    requires Passed(files, batch, i, known) && batch[i].captureId !in known
    ensures match ReadFile(files, batch[i].captureId)
            case Err(error) => AppendEach(files, batch, n) == Failed(i, error)
            case Ok(entries) => AllKnown(files, batch, i, known[batch[i].captureId := Ids(entries)])
  {
    var p := batch[i].captureId;
    if ReadFile(files, p).Err? {
      ReadFails(files, batch, i);
      FailsForGood(files, batch, i + 1, n);
    } else {
      LearnIds(files, batch, i, p, known);
    }
  }

  lemma {:induction false} PassedOrFailed(files: Files, batch: seq<Entry>, i: nat, n: nat,
                                          known: map<string, set<string>>)
    requires i < n <= |batch| && ValidCaptureId(batch[i].captureId)
    requires AppendEach(files, batch, i).Done? && AllKnown(files, batch, i, known)
    requires known.Keys == Captures(batch, i) + {batch[i].captureId}
    ensures var p := batch[i].captureId;
            match CheckSupersedes(known[p], batch[i])
            case Some(error) => AppendEach(files, batch, n) == Failed(i, error)
            case None => Passed(files, batch, i + 1, known[p := known[p] + {batch[i].id}])
  {
    var p := batch[i].captureId;
    assert KnownIs(files, batch, i, p, known[p]);
    if CheckSupersedes(known[p], batch[i]).Some? {
      CheckDecides(files, batch, i, known[p]);
      FailsForGood(files, batch, i + 1, n);
    } else {
      PassedOne(files, batch, i, known);
    }
  }

  lemma {:induction false} PassedOne(files: Files, batch: seq<Entry>, n: nat, known: map<string, set<string>>)
    requires n < |batch| && ValidCaptureId(batch[n].captureId)
    requires AppendEach(files, batch, n).Done? && AllKnown(files, batch, n, known)
    requires known.Keys == Captures(batch, n) + {batch[n].captureId}
    requires CheckSupersedes(known[batch[n].captureId], batch[n]).None?
    ensures var p := batch[n].captureId;
            Passed(files, batch, n + 1, known[p := known[p] + {batch[n].id}])
  {
    CheckDecides(files, batch, n, known[batch[n].captureId]);
    AllKnownMore(files, batch, n, known);
  }

  /** The ids kept while checking decide an entry as a single append after the others would. */
  lemma {:induction false} CheckDecides(files: Files, batch: seq<Entry>, n: nat, ids: set<string>)
    requires n < |batch| && ValidCaptureId(batch[n].captureId)
    requires AppendEach(files, batch, n).Done? && KnownIs(files, batch, n, batch[n].captureId, ids)
    ensures match CheckSupersedes(ids, batch[n])
            case Some(error) => AppendEach(files, batch, n + 1) == Failed(n, error)
            case None => AppendEach(files, batch, n + 1).Done?
  {
    AppendEachGrows(files, batch, n);
    IdsGrow(files, AppendEach(files, batch, n).files, batch, n, batch[n].captureId);
  }

  /** `ids` are the ids a capture has after the first `n` entries of the batch. */
  ghost predicate KnownIs(files: Files, batch: seq<Entry>, n: nat, p: string, ids: set<string>)
    requires n <= |batch|
  {
    ReadFile(files, p).Ok? && ids == Ids(ReadFile(files, p).value + Group(batch, n, p))
  }

  lemma {:induction false} KnownMore(files: Files, batch: seq<Entry>, n: nat, p: string, ids: set<string>)
    requires n < |batch| && KnownIs(files, batch, n, p, ids)
    ensures KnownIs(files, batch, n + 1, p, if batch[n].captureId == p then ids + {batch[n].id} else ids)
  {
    var x := ReadFile(files, p).value + Group(batch, n, p);
    var y := ReadFile(files, p).value + Group(batch, n + 1, p);
    if batch[n].captureId == p {
      assert y == x + [batch[n]];
      IdsSnoc(x, batch[n]);
    } else {
      AppendNothing(Group(batch, n, p));
    }
  }

  ghost predicate AllKnown(files: Files, batch: seq<Entry>, n: nat, known: map<string, set<string>>)
    requires n <= |batch|
  {
    forall p {:trigger KnownIs(files, batch, n, p, known[p])} :: p in known ==> KnownIs(files, batch, n, p, known[p])
  }

  lemma {:induction false} AllKnownMore(files: Files, batch: seq<Entry>, n: nat, known: map<string, set<string>>)
    requires n < |batch| && AllKnown(files, batch, n, known) && batch[n].captureId in known
    ensures AllKnown(files, batch, n + 1, known[batch[n].captureId := known[batch[n].captureId] + {batch[n].id}])
  {
    forall q | q in known
      ensures KnownIs(files, batch, n + 1, q, if q == batch[n].captureId then known[q] + {batch[n].id} else known[q])
    {
      KnownMore(files, batch, n, q, known[q]);
    }
  }

  lemma {:induction false} IdsSnoc(x: seq<Entry>, e: Entry)
    ensures Ids(x + [e]) == Ids(x) + {e.id}
  {
    forall id | id in Ids(x) + {e.id} ensures id in Ids(x + [e]) {
      if id == e.id { assert (x + [e])[|x|].id == id; } else {
        var i :| 0 <= i < |x| && x[i].id == id;
        assert (x + [e])[i].id == id;
      }
    }
  }
}
