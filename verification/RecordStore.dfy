/** The append-only analysis log: batches written all or not at all, the current entries and the
    history of one (analysis/record_store.py). */
module RecordStore {
  import opened Sequences
  import opened RecordLog
  import opened RecordBatches
  import opened RecordHistory

  class AnalysisRecord {
    var files: Files

    /** Every file is a log: ids unique, every superseded entry filed earlier. */
    ghost predicate Valid()
      reads this
    {
      Logs(files)
    }

    constructor ()
      ensures Valid() && files == map[]
    {
      files := map[];
    }

    /** How many entries name a valid capture before the first that does not. */
    method PathsOf(batch: seq<Entry>) returns (n: nat)
      ensures n <= |batch| && (n < |batch| ==> !ValidCaptureId(batch[n].captureId))
      ensures forall i :: 0 <= i < n ==> ValidCaptureId(batch[i].captureId)
    {
      n := 0;
      while n < |batch| && ValidCaptureId(batch[n].captureId)
        invariant n <= |batch| && forall i :: 0 <= i < n ==> ValidCaptureId(batch[i].captureId)
      {
        n := n + 1;
      }
    }

    /** Checks the batch in order without writing: the first failing entry and its error. */
    method Check(batch: seq<Entry>, n: nat) returns (failure: Option<(nat, Error)>)
      requires n <= |batch| && forall i :: 0 <= i < n ==> ValidCaptureId(batch[i].captureId)
      ensures failure == AppendEach(files, batch, n).Failure() && Decided(files, batch, n, failure)
    {
      EachFits(files, batch, n);
      var known: map<string, set<string>> := map[];
      for i := 0 to n
        invariant Passed(files, batch, i, known)
      {
        var error: Option<Error>;
        error, known := CheckOne(batch, i, n, known);
        if error.Some? {
          return Some((i, error.value));
        }
      }
      return None;
    }

    /** Checks one entry against the ids known for its capture, which it joins if it passes. */
    method CheckOne(batch: seq<Entry>, i: nat, ghost n: nat, known: map<string, set<string>>)
      returns (error: Option<Error>, next: map<string, set<string>>)
      requires i < n <= |batch| && ValidCaptureId(batch[i].captureId) && Passed(files, batch, i, known)
      ensures if error.Some? then AppendEach(files, batch, n) == Failed(i, error.value)
              else Passed(files, batch, i + 1, next)
    {
      var e := batch[i];
      next := known;
      if e.captureId !in known {
        FirstOfCapture(files, batch, i, n, known);
        var entries := ReadFile(files, e.captureId);
        if entries.Err? {
          return Some(entries.error), known;
        }
        next := known[e.captureId := Ids(entries.value)];
      }
      PassedOrFailed(files, batch, i, n, next);
      error := CheckSupersedes(next[e.captureId], e);
      next := next[e.captureId := next[e.captureId] + {e.id}];
    }

    /** The batch's entries per capture, in batch order. */
    method Grouped(batch: seq<Entry>) returns (groups: map<string, seq<Entry>>)
      ensures groups.Keys == Captures(batch, |batch|) && GroupsOf(batch, |batch|, groups)
    {
      groups := map[];
      for i := 0 to |batch|
        invariant groups.Keys == Captures(batch, i) && GroupsOf(batch, i, groups)
      {
        var p := batch[i].captureId;
        GroupsNext(batch, i, groups);
        groups := groups[p := (if p in groups then groups[p] else []) + [batch[i]]];
      }
    }

    /** Files a batch: it ends as appending its entries one after the other would, except that a
        batch with a failing entry leaves every file as it was. It fails if and only if some entry does
        not fit, with the first one's error, and extends the files by precisely its entries otherwise. */
    method AppendMany(batch: seq<Entry>) returns (failure: Option<(nat, Error)>)
      modifies this
      ensures failure == AppendEach(old(files), batch, |batch|).Failure()
      ensures files == if failure.None? then AppendEach(old(files), batch, |batch|).files else old(files)
      ensures Decided(old(files), batch, |batch|, failure)
      ensures if failure.None? then Extended(old(files), files, batch) else files == old(files)
      ensures old(Valid()) ==> Valid()
    {
      EachFits(files, batch, |batch|);
      var n := PathsOf(batch);
      failure := Check(batch, n);
      CheckSettles(files, batch, n);
      if failure.Some? {
        return;
      }
      if n < |batch| {
        return Some((n, InvalidCaptureId(batch[n].captureId)));
      }
      StillLogs(files, batch, |batch|);
      AppendsExtend(files, batch);
      WriteAll(batch);
    }

    /** Writes each capture's group to its file. */
    method WriteAll(batch: seq<Entry>)
      requires AppendEach(files, batch, |batch|).Done?
      modifies this
      ensures files == AppendEach(old(files), batch, |batch|).files
    {
      ghost var before := files;
      var groups := Grouped(batch);
      var left := groups.Keys;
      NothingWritten(files, batch, left);
      while left != {}
        invariant left <= groups.Keys && Written(before, files, batch, groups.Keys - left)
      {
        var p :| p in left;
        var grown := files[p := LinesOf(files, p) + Lines(groups[p])];
        WriteNext(before, files, batch, groups.Keys, left, p);
        files := grown;
        left := left - {p};
      }
      AllWritten(before, files, batch);
    }

    /** A capture's entries in file order; its file must parse and its id be valid. */
    function Entries(captureId: string): (r: Result<seq<Entry>>)
      reads this
      ensures Valid() && r.Ok? ==> Log(r.value)
    {
      if !ValidCaptureId(captureId) then Err(InvalidCaptureId(captureId)) else ReadFile(files, captureId)
    }

    /** The entry filed under an id. */
    method Get(captureId: string, id: string) returns (r: Result<Entry>)
      requires Valid()
      ensures match Entries(captureId)
              case Err(error) => r == Err(error)
              case Ok(es) => if r.Ok? then r.value in es && r.value.id == id
                             else r.error == EntryNotFound(captureId, id) && id !in Ids(es)
    {
      var es := Entries(captureId);
      if es.Err? { return Err(es.error); }
      for i := 0 to |es.value|
        invariant forall k :: 0 <= k < i ==> es.value[k].id != id
      {
        if es.value[i].id == id { return Ok(es.value[i]); }
      }
      return Err(EntryNotFound(captureId, id));
    }

    /** The supersede chain through an entry, oldest first. */
    method History(captureId: string, id: string) returns (r: Result<seq<Entry>>)
      requires Valid()
      ensures match Entries(captureId)
              case Err(error) => r == Err(error)
              case Ok(es) => if r.Ok? then IsHistory(es, id, r.value)
                             else r.error == EntryNotFound(captureId, id) && id !in Ids(es)
    {
      var es := Entries(captureId);
      if es.Err? { return Err(es.error); }
      assert Log(es.value);
      var byId := ById(es.value);
      ByIdIndexes(es.value);
      if id !in byId { return Err(EntryNotFound(captureId, id)); }
      var chain := Ancestors(es.value, byId, id);
      var rest := Descendants(es.value, id);
      HistoryJoins(es.value, id, chain, rest);
      return Ok(chain + rest);
    }
  }

  /** Back from an entry to the one that supersedes nothing, which comes first. */
  method Ancestors(ghost es: seq<Entry>, byId: map<string, Entry>, id: string) returns (chain: seq<Entry>)
    requires Log(es) && Indexes(byId, es) && id in byId
    ensures IsBack(es, id, chain)
  {
    var back: seq<Entry>, current := [], Some(id);
    ghost var at: int := Find(es, id);
    while current.Some?
      invariant BackSoFar(es, id, back, current)
      invariant current.Some? ==> At(es, at, current.value)
      decreases if current.None? then 0 else at + 1
    {
      assert es[at].id in Ids(es);
      var entry := byId[current.value];
      SameId(es, entry, es[at]);
      back := back + [entry];
      current := entry.supersedes;
      if current.Some? {
        at := ParentBefore(es, at);
      }
    }
    BackDone(es, id, back);
    chain := Reversed(back);
  }

  /** Forward from an entry to its newest child, again and again, until nothing supersedes. */
  method Descendants(es: seq<Entry>, id: string) returns (chain: seq<Entry>)
    requires Log(es) && id in Ids(es)
    ensures ForwardSoFar(es, id, chain) && Tip(es, Last(id, chain))
  {
    chain := [];
    var current := id;
    ghost var at: int := Find(es, id);
    while true
      invariant ForwardSoFar(es, id, chain) && current == Last(id, chain) && At(es, at, current)
      decreases |es| - at
    {
      var children := Children(es, current);
      if children == [] {
        NewestChild(es, current);
        return;
      }
      var newest := children[|children| - 1];
      at := ForwardStep(es, id, chain, at, newest);
      chain := chain + [newest];
      current := newest.id;
    }
  }
}
