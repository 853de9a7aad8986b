/** What appending accepts, refuses and writes, told by the lines of the files themselves and by the
    order of the batch (analysis/record_store.py, analysis/record.py). */
module RecordBatches {
  import opened Sequences
  import opened RecordLog

  // ---- what is on file --------------------------------------------------------------------------------

  ghost predicate LineHas(line: Line, id: string) { line.Parsed? && line.entry.id == id }

  /** A line of the capture's file is an entry with this id. */
  ghost predicate HasId(files: Files, p: string, id: string) {
    p in files && exists line {:trigger LineHas(line, id)} :: line in files[p] && LineHas(line, id)
  }

  /** Line `k` of the capture's file is the first that does not parse. */
  ghost predicate FirstBad(files: Files, p: string, k: nat) {
    p in files && k < |files[p]| && files[p][k].Corrupt? && forall j :: 0 <= j < k ==> !files[p][j].Corrupt?
  }

  /** 1 to 128 letters, digits and `_.-:`, and perhaps a newline after them. */
  ghost predicate NamesCapture(id: string) {
    exists n: nat {:trigger NamePart(id, n)} :: 1 <= n <= 128 && NamePart(id, n)
  }

  ghost predicate NamePart(id: string, n: nat) {
    && (|id| == n || (|id| == n + 1 && id[n] == '\n'))
    && forall i :: 0 <= i < n ==>
         'A' <= id[i] <= 'Z' || 'a' <= id[i] <= 'z' || '0' <= id[i] <= '9' || id[i] in {'_', '.', '-', ':'}
  }

  lemma {:induction false} IdCharsAre(s: string, n: nat)
    requires n <= |s|
    ensures IdChars(s, n) <==> forall i :: 0 <= i < n ==> IdChar(s[i])
  {
    if n > 0 { IdCharsAre(s, n - 1); }
  }

  lemma {:induction false} ValidNames(s: string)
    ensures ValidCaptureId(s) <==> NamesCapture(s)
  {
    var n := if s != [] && s[|s| - 1] == '\n' then |s| - 1 else |s|;
    IdCharsAre(s, n);
    assert ValidCaptureId(s) ==> NamePart(s, n);
    if m: nat :| 1 <= m <= 128 && NamePart(s, m) { assert m == n; }
  }

  // ---- reading a file -----------------------------------------------------------------------------------

  ghost function EntryMarks(lines: seq<Line>): (r: seq<bool>)
    ensures |r| == |lines| && forall i :: 0 <= i < |r| ==> r[i] == lines[i].Parsed?
  {
    seq(|lines|, i requires 0 <= i < |lines| => lines[i].Parsed?)
  }

  /** The first `n` lines are free of corruption, and `es` are the entries among them, which stand
      at `places`. */
  ghost predicate Reads(lines: seq<Line>, n: nat, es: seq<Entry>, places: seq<nat>)
    requires n <= |lines|
  {
    NoneCorrupt(lines, n) && Places(EntryMarks(lines), n, places) && EntriesAt(lines, es, places)
  }

  ghost predicate NoneCorrupt(lines: seq<Line>, n: nat)
    requires n <= |lines|
  {
    forall j :: 0 <= j < n ==> !lines[j].Corrupt?
  }

  ghost predicate EntriesAt(lines: seq<Line>, es: seq<Entry>, places: seq<nat>) {
    && |es| == |places|
    && forall k :: 0 <= k < |es| ==> places[k] < |lines| && lines[places[k]] == Parsed(es[k])
  }

  lemma {:induction false} OneMoreEntry(lines: seq<Line>, es: seq<Entry>, places: seq<nat>, n: nat)
    requires EntriesAt(lines, es, places) && n < |lines| && lines[n].Parsed?
    ensures EntriesAt(lines, es + [lines[n].entry], places + [n])
  {
    var more, next := es + [lines[n].entry], places + [n];
    forall k | 0 <= k < |more| ensures next[k] < |lines| && lines[next[k]] == Parsed(more[k]) {
      if k < |es| { assert next[k] == places[k] && more[k] == es[k]; }
    }
  }

  lemma {:induction false} OneMoreSound(lines: seq<Line>, n: nat)
    requires 0 < n <= |lines| && NoneCorrupt(lines, n - 1) && !lines[n - 1].Corrupt?
    ensures NoneCorrupt(lines, n)
  {
  }

  /** The first line of the `n` that does not parse is number `k + 1` of the error. */
  ghost predicate FailsAt(captureId: string, lines: seq<Line>, n: nat, k: nat, error: Error)
    requires n <= |lines|
  {
    && k < n && lines[k].Corrupt? && (forall j :: 0 <= j < k ==> !lines[j].Corrupt?)
    && error == CorruptRecord(captureId, k + 1)
  }

  /** What reading a file gives: its entries in file order, or the first line that does not parse. */
  ghost predicate ReadingIs(captureId: string, lines: seq<Line>, n: nat, r: Result<seq<Entry>>)
    requires n <= |lines|
  {
    match r
    case Ok(es) => exists places: seq<nat> :: Reads(lines, n, es, places)
    case Err(error) => exists k: nat :: FailsAt(captureId, lines, n, k, error)
  }

  lemma {:induction false} ReadMeans(captureId: string, lines: seq<Line>, n: nat)
    requires n <= |lines|
    ensures ReadingIs(captureId, lines, n, ReadLines(captureId, lines, n))
  {
    if n == 0 {
      assert Reads(lines, 0, [], []);
    } else {
      ReadMeans(captureId, lines, n - 1);
      ReadNext(captureId, lines, n, ReadLines(captureId, lines, n - 1), ReadLines(captureId, lines, n));
    }
  }

  lemma {:induction false} ReadNext(captureId: string, lines: seq<Line>, n: nat, before: Result<seq<Entry>>,
                                    r: Result<seq<Entry>>)
    requires 0 < n <= |lines| && ReadingIs(captureId, lines, n - 1, before)
    requires r == match before
                  case Err(e) => Err(e)
                  case Ok(es) => match lines[n - 1]
                                 case Corrupt => Err(CorruptRecord(captureId, n))
                                 case Blank => Ok(es)
                                 case Parsed(e) => Ok(es + [e])
    ensures ReadingIs(captureId, lines, n, r)
  {
    if before.Err? {
      var k: nat :| FailsAt(captureId, lines, n - 1, k, before.error);
      assert FailsAt(captureId, lines, n, k, before.error);
    } else {
      var places: seq<nat> :| Reads(lines, n - 1, before.value, places);
      if lines[n - 1].Corrupt? {
        assert FailsAt(captureId, lines, n, n - 1, r.error);
      } else {
        ReadsNext(lines, n, before.value, places);
      }
    }
  }

  lemma {:induction false} ReadsNext(lines: seq<Line>, n: nat, es: seq<Entry>, places: seq<nat>)
    requires 0 < n <= |lines| && Reads(lines, n - 1, es, places) && !lines[n - 1].Corrupt?
    ensures match lines[n - 1]
            case Blank => Reads(lines, n, es, places)
            case Parsed(e) => Reads(lines, n, es + [e], places + [n - 1])
  {
    OneMoreSound(lines, n);
    if lines[n - 1].Parsed? {
      PlaceTaken(EntryMarks(lines), n, places);
      OneMoreEntry(lines, es, places, n - 1);
    } else {
      PlaceSkipped(EntryMarks(lines), n, places);
    }
  }

  /** Reading a capture's file. */
  lemma {:induction false} FileReads(files: Files, p: string)
    ensures p in files ==> ReadingIs(p, files[p], |files[p]|, ReadFile(files, p))
    ensures p !in files ==> ReadFile(files, p) == Ok([])
  {
    if p in files { ReadMeans(p, files[p], |files[p]|); }
  }

  // ---- one append -----------------------------------------------------------------------------------------

  /** No line of the capture's file is corrupt. */
  ghost predicate Clean(files: Files, p: string) {
    p in files ==> forall k :: 0 <= k < |files[p]| ==> !files[p][k].Corrupt?
  }

  /** An entry may be filed: its capture id is well formed, the file is clean and has no entry with its
      id, and it supersedes nothing or an entry of the file. */
  ghost predicate Accepts(files: Files, e: Entry) {
    && NamesCapture(e.captureId) && Clean(files, e.captureId) && !HasId(files, e.captureId, e.id)
    && (e.supersedes.None? || HasId(files, e.captureId, e.supersedes.value))
  }

  /** Why an entry may not be filed; the first reason counts. */
  ghost predicate Refuses(files: Files, e: Entry, error: Error) {
    if !NamesCapture(e.captureId) then error == InvalidCaptureId(e.captureId)
    else if !Clean(files, e.captureId) then
      exists k: nat :: FirstBad(files, e.captureId, k) && error == CorruptRecord(e.captureId, k + 1)
    else if HasId(files, e.captureId, e.id) then error == DuplicateEntryId(e.id)
    else e.supersedes.Some? && !HasId(files, e.captureId, e.supersedes.value)
         && error == UnknownSupersedes(e.supersedes.value, e.captureId)
  }

  lemma {:induction false} ReadIds(files: Files, p: string)
    ensures match ReadFile(files, p)
            case Ok(es) => Clean(files, p) && forall id :: HasId(files, p, id) <==> id in Ids(es)
            case Err(error) => exists k: nat :: FirstBad(files, p, k) && error == CorruptRecord(p, k + 1)
  {
    FileReads(files, p);
    if p in files {
      match ReadFile(files, p)
      case Err(error) =>
        var k: nat :| FailsAt(p, files[p], |files[p]|, k, error);
        assert FirstBad(files, p, k);
      case Ok(es) =>
        var places: seq<nat> :| Reads(files[p], |files[p]|, es, places);
        forall id ensures HasId(files, p, id) <==> id in Ids(es) { IdIsRead(files, p, es, places, id); }
    }
  }

  lemma {:induction false} IdIsRead(files: Files, p: string, es: seq<Entry>, places: seq<nat>, id: string)
    requires p in files && Reads(files[p], |files[p]|, es, places)
    ensures HasId(files, p, id) <==> id in Ids(es)
  {
    var lines := files[p];
    if line :| line in lines && LineHas(line, id) {
      var i: nat :| i < |lines| && lines[i] == line;
      assert EntryMarks(lines)[i] && i in places;
      var k :| 0 <= k < |places| && places[k] == i;
      assert es[k].id == id;
    }
    if id in Ids(es) {
      var k :| 0 <= k < |es| && es[k].id == id;
      assert LineHas(lines[places[k]], id);
    }
  }

  /** A single append succeeds if and only if the files accept the entry, which it then files as the
      last line; otherwise it gives the first reason against it. */
  lemma {:induction false} AppendAccepts(files: Files, e: Entry)
    ensures match Append(files, e)
            case Ok(after) => Accepts(files, e) && Filed(files, after, e)
            case Err(error) => !Accepts(files, e) && Refuses(files, e, error)
  {
    ValidNames(e.captureId);
    ReadIds(files, e.captureId);
    if ReadFile(files, e.captureId).Err? {
      var k: nat :| FirstBad(files, e.captureId, k);
      assert !Clean(files, e.captureId);
    }
  }

  /** One more line in the entry's file, every other file as it was. */
  ghost predicate Filed(before: Files, after: Files, e: Entry) {
    && after.Keys == before.Keys + {e.captureId}
    && (forall p :: p in before && p != e.captureId ==> after[p] == before[p])
    && after[e.captureId] == (if e.captureId in before then before[e.captureId] else []) + [Parsed(e)]
  }

  // ---- a batch --------------------------------------------------------------------------------------------

  /** Entry `j` of the batch is for this capture and has this id. */
  ghost predicate EntryIs(e: Entry, p: string, id: string) { e.captureId == p && e.id == id }

  /** The id is filed for the capture, or one of the first `n` entries of the batch is to file it there. */
  ghost predicate Known(files: Files, batch: seq<Entry>, n: nat, p: string, id: string)
    requires n <= |batch|
  {
    HasId(files, p, id) || exists j {:trigger EntryIs(batch[j], p, id)} :: 0 <= j < n && EntryIs(batch[j], p, id)
  }

  /** Entry `i` of the batch may be filed after the entries before it. */
  ghost predicate Fits(files: Files, batch: seq<Entry>, i: nat)
    requires i < |batch|
  {
    var e := batch[i];
    && NamesCapture(e.captureId) && Clean(files, e.captureId) && !Known(files, batch, i, e.captureId, e.id)
    && (e.supersedes.None? || Known(files, batch, i, e.captureId, e.supersedes.value))
  }

  /** Why entry `i` may not; the first reason counts. */
  ghost predicate Unfit(files: Files, batch: seq<Entry>, i: nat, error: Error)
    requires i < |batch|
  {
    var e := batch[i];
    if !NamesCapture(e.captureId) then error == InvalidCaptureId(e.captureId)
    else if !Clean(files, e.captureId) then
      exists k: nat :: FirstBad(files, e.captureId, k) && error == CorruptRecord(e.captureId, k + 1)
    else if Known(files, batch, i, e.captureId, e.id) then error == DuplicateEntryId(e.id)
    else e.supersedes.Some? && !Known(files, batch, i, e.captureId, e.supersedes.value)
         && error == UnknownSupersedes(e.supersedes.value, e.captureId)
  }

  ghost predicate AllFit(files: Files, batch: seq<Entry>, n: nat)
    requires n <= |batch|
  {
    forall i {:trigger Fits(files, batch, i)} :: 0 <= i < n ==> Fits(files, batch, i)
  }

  /** The group of a capture holds the ids that the batch is to file for it. */
  lemma {:induction false} GroupHas(batch: seq<Entry>, n: nat, p: string, e: Entry)
    requires n <= |batch|
    ensures e in Group(batch, n, p) <==> e.captureId == p && e in batch[..n]
  {
    if n > 0 {
      GroupHas(batch, n - 1, p, e);
      assert batch[..n] == batch[..n - 1] + [batch[n - 1]];
    }
  }

  lemma {:induction false} LinesHave(g: seq<Entry>, e: Entry)
    ensures Parsed(e) in Lines(g) <==> e in g
  {
    if e in g {
      var i :| 0 <= i < |g| && g[i] == e;
      assert Lines(g)[i] == Parsed(e);
    }
  }

  /** After the first `n` entries a capture has the ids it had and those of its entries. */
  lemma {:induction false} GrownKnows(files: Files, after: Files, batch: seq<Entry>, n: nat, p: string, id: string)
    requires n <= |batch| && Grown(files, after, batch, n)
    ensures HasId(after, p, id) <==> Known(files, batch, n, p, id)
  {
    GrownLines(files, after, batch, n, p);
    var g := Group(batch, n, p);
    if HasId(after, p, id) {
      var line :| line in after[p] && LineHas(line, id);
      if line in Lines(g) {
        LinesHave(g, line.entry);
        GroupHas(batch, n, p, line.entry);
        var j :| 0 <= j < n && batch[j] == line.entry;
        assert EntryIs(batch[j], p, id);
      }
    }
    if HasId(files, p, id) {
      var line :| line in files[p] && LineHas(line, id);
      assert line in after[p];
    }
    if j :| 0 <= j < n && EntryIs(batch[j], p, id) {
      assert batch[j] in batch[..n];
      GroupHas(batch, n, p, batch[j]);
      LinesHave(g, batch[j]);
      GroupOutside(batch, n, p);
      assert LineHas(Parsed(batch[j]), id);
    }
  }

  /** Filing entries leaves corruption where it was. */
  lemma {:induction false} GrownBad(files: Files, after: Files, batch: seq<Entry>, n: nat, p: string)
    requires n <= |batch| && Grown(files, after, batch, n)
    ensures Clean(after, p) <==> Clean(files, p)
    ensures forall k: nat :: FirstBad(after, p, k) ==> FirstBad(files, p, k)
  {
    GrownLines(files, after, batch, n, p);
    if p in files {
      forall k | 0 <= k < |files[p]| ensures after[p][k] == files[p][k] {}
    }
  }

  /** The next entry of a batch is appended if and only if it fits. */
  lemma {:induction false} NextFits(files: Files, after: Files, batch: seq<Entry>, n: nat, r: Result<Files>)
    requires n < |batch| && Grown(files, after, batch, n) && r == Append(after, batch[n])
    ensures r.Ok? ==> Fits(files, batch, n)
    ensures r.Err? ==> !Fits(files, batch, n) && Unfit(files, batch, n, r.error)
  {
    var e := batch[n];
    AppendAccepts(after, e);
    GrownKnows(files, after, batch, n, e.captureId, e.id);
    if e.supersedes.Some? { GrownKnows(files, after, batch, n, e.captureId, e.supersedes.value); }
    GrownBad(files, after, batch, n, e.captureId);
  }

  /** The batch ends as its entries fit: all do, or the first that does not gives the error. */
  ghost predicate Decided(files: Files, batch: seq<Entry>, n: nat, failure: Option<(nat, Error)>)
    requires n <= |batch|
  {
    match failure
    case None => AllFit(files, batch, n)
    case Some(f) => f.0 < n && AllFit(files, batch, f.0) && !Fits(files, batch, f.0) && Unfit(files, batch, f.0, f.1)
  }

  lemma {:induction false} EachFits(files: Files, batch: seq<Entry>, n: nat)
    requires n <= |batch|
    ensures Decided(files, batch, n, AppendEach(files, batch, n).Failure())
  {
    if n > 0 {
      EachFits(files, batch, n - 1);
      if AppendEach(files, batch, n - 1).Done? { AppendEachGrows(files, batch, n - 1); }
      ThenFits(files, AppendEach(files, batch, n - 1), batch, n);
    }
  }

  lemma {:induction false} ThenFits(files: Files, before: Outcome, batch: seq<Entry>, n: nat)
    requires 0 < n <= |batch| && Decided(files, batch, n - 1, before.Failure())
    requires before.Done? ==> Grown(files, before.files, batch, n - 1)
    ensures Decided(files, batch, n, Then(before, n - 1, batch[n - 1]).Failure())
  {
    if before.Done? {
      var r := Append(before.files, batch[n - 1]);
      NextFits(files, before.files, batch, n - 1, r);
      AfterNext(files, batch, n, r);
    }
  }

  lemma {:induction false} AfterNext(files: Files, batch: seq<Entry>, n: nat, r: Result<Files>)
    requires 0 < n <= |batch| && AllFit(files, batch, n - 1)
    requires r.Ok? ==> Fits(files, batch, n - 1)
    requires r.Err? ==> !Fits(files, batch, n - 1) && Unfit(files, batch, n - 1, r.error)
    ensures Decided(files, batch, n, if r.Ok? then None else Some((n - 1, r.error)))
  {
  }

  // ---- what a batch writes ----------------------------------------------------------------------------------

  ghost function CaptureMarks(batch: seq<Entry>, p: string): (r: seq<bool>)
    ensures |r| == |batch| && forall i :: 0 <= i < |r| ==> r[i] == (batch[i].captureId == p)
  {
    seq(|batch|, i requires 0 <= i < |batch| => batch[i].captureId == p)
  }

  /** The lines are the capture's entries among the first `n` of the batch, which stand at `places`. */
  ghost predicate LinesAt(batch: seq<Entry>, n: nat, p: string, lines: seq<Line>, places: seq<nat>)
    requires n <= |batch|
  {
    Places(CaptureMarks(batch, p), n, places) && Copies(batch, lines, places)
  }

  ghost predicate Copies(batch: seq<Entry>, lines: seq<Line>, places: seq<nat>) {
    && |lines| == |places|
    && forall k :: 0 <= k < |lines| ==> places[k] < |batch| && lines[k] == Parsed(batch[places[k]])
  }

  lemma {:induction false} OneMoreCopy(batch: seq<Entry>, lines: seq<Line>, places: seq<nat>, n: nat)
    requires Copies(batch, lines, places) && n < |batch|
    ensures Copies(batch, lines + [Parsed(batch[n])], places + [n])
  {
    var more, next := lines + [Parsed(batch[n])], places + [n];
    forall k | 0 <= k < |more| ensures next[k] < |batch| && more[k] == Parsed(batch[next[k]]) {
      if k < |lines| { assert next[k] == places[k] && more[k] == lines[k]; }
    }
  }

  /** Every file keeps its lines and gains those of its entries in the batch, in batch order. */
  ghost predicate Extended(before: Files, after: Files, batch: seq<Entry>) {
    && (forall p :: p in after <==> p in before || exists e :: e in batch && e.captureId == p)
    && forall p :: p in after ==> FileExtended(before, after, batch, p)
  }

  ghost predicate FileExtended(before: Files, after: Files, batch: seq<Entry>, p: string)
    requires p in after
  {
    exists lines, places: seq<nat> :: LinesAt(batch, |batch|, p, lines, places)
      && after[p] == (if p in before then before[p] else []) + lines
  }

  lemma {:induction false} GroupPlaces(batch: seq<Entry>, n: nat, p: string) returns (places: seq<nat>)
    requires n <= |batch|
    ensures LinesAt(batch, n, p, Lines(Group(batch, n, p)), places)
  {
    if n == 0 {
      places := [];
    } else {
      places := GroupPlaces(batch, n - 1, p);
      if batch[n - 1].captureId == p {
        GroupTaken(batch, n, p, Group(batch, n - 1, p), places);
        places := places + [n - 1];
      } else {
        GroupSkipped(batch, n, p, Group(batch, n - 1, p), places);
      }
    }
  }

  lemma {:induction false} GroupTaken(batch: seq<Entry>, n: nat, p: string, g: seq<Entry>, places: seq<nat>)
    requires 0 < n <= |batch| && LinesAt(batch, n - 1, p, Lines(g), places) && batch[n - 1].captureId == p
    ensures LinesAt(batch, n, p, Lines(g + [batch[n - 1]]), places + [n - 1])
  {
    PlaceTaken(CaptureMarks(batch, p), n, places);
    OneMoreCopy(batch, Lines(g), places, n - 1);
    LinesMore(g, batch[n - 1]);
  }

  lemma {:induction false} LinesMore(g: seq<Entry>, e: Entry)
    ensures Lines(g + [e]) == Lines(g) + [Parsed(e)]
  {
  }

  lemma {:induction false} GroupSkipped(batch: seq<Entry>, n: nat, p: string, g: seq<Entry>, places: seq<nat>)
    requires 0 < n <= |batch| && LinesAt(batch, n - 1, p, Lines(g), places) && batch[n - 1].captureId != p
    ensures LinesAt(batch, n, p, Lines(g + []), places)
  {
    PlaceSkipped(CaptureMarks(batch, p), n, places);
    AppendNothing(g);
  }

  lemma {:induction false} CapturesAre(batch: seq<Entry>, n: nat, p: string)
    requires n <= |batch|
    ensures p in Captures(batch, n) <==> exists e :: e in batch[..n] && e.captureId == p
  {
    if n > 0 {
      CapturesAre(batch, n - 1, p);
      assert batch[..n] == batch[..n - 1] + [batch[n - 1]];
    }
  }

  /** Appending a whole batch extends the files with it. */
  lemma {:induction false} AppendsExtend(files: Files, batch: seq<Entry>)
    requires AppendEach(files, batch, |batch|).Done?
    ensures Extended(files, AppendEach(files, batch, |batch|).files, batch)
  {
    var after := AppendEach(files, batch, |batch|).files;
    AppendEachGrows(files, batch, |batch|);
    GrownExtends(files, after, batch);
  }

  lemma {:induction false} GrownExtends(files: Files, after: Files, batch: seq<Entry>)
    requires Grown(files, after, batch, |batch|)
    ensures Extended(files, after, batch)
  {
    TakeAll(batch);
    forall p ensures p in after <==> p in files || exists e :: e in batch && e.captureId == p {
      CapturesAre(batch, |batch|, p);
    }
    forall p | p in after ensures FileExtended(files, after, batch, p) {
      var places := GroupPlaces(batch, |batch|, p);
      assert after[p] == LinesOf(files, p) + Lines(Group(batch, |batch|, p));
    }
  }
}
