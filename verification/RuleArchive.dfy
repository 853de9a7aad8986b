/** Versioned sources whose replaced text is archived before it is overwritten: what is kept when
    any put or delete may stop between two file writes (analysis/yara_rule_store.py,
    analysis/plugin_store.py). */
module RuleArchive {
  import opened Sequences

  /** The sidecar of a name; a tombstone has no recorded digest. */
  datatype Meta = Meta(version: nat, sha: Option<string>)

  /** The store's files: current sources, sidecars, and archived sources by name and short digest. */
  datatype Store = Store(live: map<string, string>, meta: map<string, Meta>, history: map<(string, string), string>)

  const EMPTY := Store(map[], map[], map[])

  /** One file written or removed, atomically. */
  datatype Write = Archive(name: string, text: string)
                 | SetLive(name: string, text: string)
                 | Unlink(name: string)
                 | SetMeta(name: string, meta: Meta)

  type Digest = string -> string

  function Apply(s: Store, digest: Digest, w: Write): Store {
    match w
    case Archive(name, text) => s.(history := s.history[(name, digest(text)) := text])
    case SetLive(name, text) => s.(live := s.live[name := text])
    case Unlink(name) => s.(live := s.live - {name})
    case SetMeta(name, meta) => s.(meta := s.meta[name := meta])
  }

  function ApplyFirst(s: Store, digest: Digest, writes: seq<Write>, k: nat): Store
    requires k <= |writes|
  {
    if k == 0 then s else Apply(ApplyFirst(s, digest, writes, k - 1), digest, writes[k - 1])
  }

  function Version(s: Store, name: string): nat {
    if name in s.meta then s.meta[name].version else 0
  }

  // ---- the two operations ----------------------------------------------------------------------------

  /** The current source goes to history unless its digest is already there. */
  function ArchiveWrites(s: Store, digest: Digest, name: string): seq<Write> {
    if NeedsArchive(s, digest, name) then [Archive(name, s.live[name])] else []
  }

  predicate NeedsArchive(s: Store, digest: Digest, name: string) {
    name in s.live && (name, digest(s.live[name])) !in s.history
  }

  function PutWrites(s: Store, digest: Digest, sha: Digest, name: string, source: string): seq<Write> {
    ArchiveWrites(s, digest, name)
      + [SetLive(name, source), SetMeta(name, Meta(Version(s, name) + 1, Some(sha(source))))]
  }

  /** Nothing is written for a name that has no source. */
  function DeleteWrites(s: Store, digest: Digest, name: string): seq<Write> {
    if name !in s.live then []
    else ArchiveWrites(s, digest, name) + [Unlink(name), SetMeta(name, Meta(Version(s, name), None))]
  }

  /** An operation that gets `upTo` of its writes done before it stops, or all of them. */
  datatype Op = Put(name: string, source: string, upTo: nat) | Delete(name: string, upTo: nat)

  function WritesOf(s: Store, digest: Digest, sha: Digest, op: Op): seq<Write> {
    match op
    case Put(name, source, _) => PutWrites(s, digest, sha, name, source)
    case Delete(name, _) => DeleteWrites(s, digest, name)
  }

  function Done(s: Store, digest: Digest, sha: Digest, op: Op): (k: nat)
    ensures k <= |WritesOf(s, digest, sha, op)|
  {
    Min(op.upTo, |WritesOf(s, digest, sha, op)|)
  }

  /** What the writes that an operation gets done come to (`StepIsWrites`). */
  function Step(s: Store, digest: Digest, sha: Digest, op: Op): Store {
    var name, archived := op.name, NeedsArchive(s, digest, op.name);
    var first := if archived then 1 else 0;
    if op.Delete? && name !in s.live then s
    else
      Store(if op.upTo <= first then s.live else if op.Put? then s.live[name := op.source] else s.live - {name},
            if op.upTo <= first + 1 then s.meta
            else s.meta[name := if op.Put? then Meta(Version(s, name) + 1, Some(sha(op.source)))
                                else Meta(Version(s, name), None)],
            if op.upTo == 0 || !archived then s.history
            else s.history[(name, digest(s.live[name])) := s.live[name]])
  }

  lemma {:induction false} StepIsWrites(s: Store, digest: Digest, sha: Digest, op: Op)
    ensures Step(s, digest, sha, op) == ApplyFirst(s, digest, WritesOf(s, digest, sha, op), Done(s, digest, sha, op))
  {
    var k := Done(s, digest, sha, op);
    WritesDone(s, digest, sha, op, k);
    MetaDone(s, digest, sha, op, k);
  }

  /** The store after the first `n` operations of a run. */
  function Run(ops: seq<Op>, digest: Digest, sha: Digest, n: nat): Store
    requires n <= |ops|
  {
    if n == 0 then EMPTY
    else
      Step(Run(ops, digest, sha, n - 1), digest, sha, ops[n - 1])
  }

  // ---- what was ever live --------------------------------------------------------------------------------

  ghost function LivePairs(s: Store): set<(string, string)> {
    set name | name in s.live :: (name, s.live[name])
  }

  /** Sources live before or after any of the first `k` writes. */
  ghost function LiveDuring(s: Store, digest: Digest, writes: seq<Write>, k: nat): set<(string, string)>
    requires k <= |writes|
  {
    LivePairs(ApplyFirst(s, digest, writes, k)) + if k == 0 then {} else LiveDuring(s, digest, writes, k - 1)
  }

  /** Sources that were live at any moment of the first `n` operations. */
  ghost function EverLive(ops: seq<Op>, digest: Digest, sha: Digest, n: nat): set<(string, string)>
    requires n <= |ops|
  {
    if n == 0 then {}
    else
      var s := Run(ops, digest, sha, n - 1);
      EverLive(ops, digest, sha, n - 1)
      + LiveDuring(s, digest, WritesOf(s, digest, sha, ops[n - 1]), Done(s, digest, sha, ops[n - 1]))
  }

  ghost predicate IsLive(s: Store, p: (string, string)) { p.0 in s.live && s.live[p.0] == p.1 }

  ghost predicate Archived(s: Store, digest: Digest, p: (string, string)) { (p.0, digest(p.1)) in s.history }

  /** The source itself can still be read, from the live file or from history. */
  ghost predicate Survives(s: Store, digest: Digest, p: (string, string)) {
    IsLive(s, p) || (Archived(s, digest, p) && s.history[(p.0, digest(p.1))] == p.1)
  }

  /** Every source ever live is live or has its digest in history; history holds sources that were
      live, under their own digests. */
  ghost predicate Safe(ever: set<(string, string)>, s: Store, digest: Digest) {
    && (forall name :: name in s.live ==> (name, s.live[name]) in ever)
    && (forall p :: p in ever ==> IsLive(s, p) || Archived(s, digest, p))
    && (forall key :: key in s.history ==> digest(s.history[key]) == key.1 && (key.0, s.history[key]) in ever)
  }

  /** A write that gives no source up: what it replaces or removes is in history. */
  ghost predicate Allowed(s: Store, digest: Digest, w: Write) {
    match w
    case Archive(name, text) => IsLive(s, (name, text)) && (name, digest(text)) !in s.history
    case SetLive(name, _) => name in s.live ==> Archived(s, digest, (name, s.live[name]))
    case Unlink(name) => name in s.live ==> Archived(s, digest, (name, s.live[name]))
    case SetMeta(_, _) => true
  }

  lemma {:induction false} WriteKeepsSafe(ever: set<(string, string)>, s: Store, digest: Digest, w: Write)
    requires Safe(ever, s, digest) && Allowed(s, digest, w)
    ensures Safe(ever + LivePairs(Apply(s, digest, w)), Apply(s, digest, w), digest)
  {
    var next := Apply(s, digest, w);
    forall name | name in next.live ensures (name, next.live[name]) in LivePairs(next) {}
    forall p | p in ever + LivePairs(next) ensures IsLive(next, p) || Archived(next, digest, p) {
      if p in ever {
        assert IsLive(s, p) || Archived(s, digest, p);
      }
    }
  }

  lemma {:induction false} WritesAllowed(s: Store, digest: Digest, sha: Digest, op: Op, k: nat)
    requires k < |WritesOf(s, digest, sha, op)|
    ensures var writes := WritesOf(s, digest, sha, op);
            Allowed(ApplyFirst(s, digest, writes, k), digest, writes[k])
  {
    var writes := WritesOf(s, digest, sha, op);
    if k > 0 {
      assert ApplyFirst(s, digest, writes, 1) == Apply(s, digest, writes[0]);
    }
  }

  /** Writes that are each allowed when their turn comes. */
  ghost predicate AllAllowed(s: Store, digest: Digest, writes: seq<Write>) {
    forall k: nat {:trigger AllowedAt(s, digest, writes, k)} :: k < |writes| ==> AllowedAt(s, digest, writes, k)
  }

  ghost predicate AllowedAt(s: Store, digest: Digest, writes: seq<Write>, k: nat)
    requires k < |writes|
  {
    Allowed(ApplyFirst(s, digest, writes, k), digest, writes[k])
  }

  lemma {:induction false} WritesKeepSafe(ever: set<(string, string)>, s: Store, digest: Digest, writes: seq<Write>,
                                          k: nat)
    requires Safe(ever, s, digest) && k <= |writes| && AllAllowed(s, digest, writes)
    ensures Safe(ever + LiveDuring(s, digest, writes, k), ApplyFirst(s, digest, writes, k), digest)
  {
    if k == 0 {
      StillSafe(ever, LiveDuring(s, digest, writes, 0), s, digest);
    } else {
      WritesKeepSafe(ever, s, digest, writes, k - 1);
      assert AllowedAt(s, digest, writes, k - 1);
      var before := ever + LiveDuring(s, digest, writes, k - 1);
      WriteKeepsSafe(before, ApplyFirst(s, digest, writes, k - 1), digest, writes[k - 1]);
      assert ever + LiveDuring(s, digest, writes, k)
          == before + LivePairs(ApplyFirst(s, digest, writes, k));
    }
  }

  lemma {:induction false} StillSafe(ever: set<(string, string)>, live: set<(string, string)>, s: Store, digest: Digest)
    requires Safe(ever, s, digest) && live == LivePairs(s)
    ensures Safe(ever + live, s, digest)
  {
    assert ever + live == ever;
  }

  /** An operation, stopped after any of its writes, keeps every source. */
  lemma {:induction false} OpKeepsSafe(ever: set<(string, string)>, s: Store, digest: Digest, sha: Digest, op: Op,
                                       k: nat)
    requires Safe(ever, s, digest) && k <= |WritesOf(s, digest, sha, op)|
    ensures var writes := WritesOf(s, digest, sha, op);
            Safe(ever + LiveDuring(s, digest, writes, k), ApplyFirst(s, digest, writes, k), digest)
  {
    var writes := WritesOf(s, digest, sha, op);
    forall i: nat | i < |writes| ensures AllowedAt(s, digest, writes, i) { WritesAllowed(s, digest, sha, op, i); }
    WritesKeepSafe(ever, s, digest, writes, k);
  }

  ghost predicate SafeAt(ops: seq<Op>, digest: Digest, sha: Digest, n: nat)
    requires n <= |ops|
  {
    Safe(EverLive(ops, digest, sha, n), Run(ops, digest, sha, n), digest)
  }

  lemma {:induction false} NextIsSafe(ops: seq<Op>, digest: Digest, sha: Digest, n: nat)
    requires 0 < n <= |ops| && SafeAt(ops, digest, sha, n - 1)
    ensures SafeAt(ops, digest, sha, n)
  {
    var s, op := Run(ops, digest, sha, n - 1), ops[n - 1];
    StepIsWrites(s, digest, sha, op);
    OpKeepsSafe(EverLive(ops, digest, sha, n - 1), s, digest, sha, op, Done(s, digest, sha, op));
  }

  lemma {:induction false} StartIsSafe(ops: seq<Op>, digest: Digest, sha: Digest, n: nat)
    requires n == 0
    ensures SafeAt(ops, digest, sha, n)
  {
  }

  lemma {:induction false} SafeNext(ops: seq<Op>, digest: Digest, sha: Digest, n: nat)
    requires n <= |ops| && (n > 0 ==> SafeAt(ops, digest, sha, n - 1))
    ensures SafeAt(ops, digest, sha, n)
  {
    if n == 0 {
      StartIsSafe(ops, digest, sha, n);
    } else {
      NextIsSafe(ops, digest, sha, n);
    }
  }

  lemma {:induction false} SafeUpTo(ops: seq<Op>, digest: Digest, sha: Digest, n: nat)
    requires n <= |ops|
    ensures SafeAt(ops, digest, sha, n)
  {
    if n > 0 { SafeUpTo(ops, digest, sha, n - 1); }
    SafeNext(ops, digest, sha, n);
  }

  /** Over every run, wherever its operations stop, no source goes without its digest in history. */
  lemma {:induction false} EveryRunIsSafe(ops: seq<Op>, digest: Digest, sha: Digest, n: nat)
    requires n <= |ops|
    ensures Safe(EverLive(ops, digest, sha, n), Run(ops, digest, sha, n), digest)
  {
    SafeUpTo(ops, digest, sha, n);
  }

  /** Only a digest collision can lose a source: where one that was live cannot be read back, its place
      in history is held by another source of the same name and short digest that was live too. */
  lemma {:induction false} OnlyCollisionsLose(ops: seq<Op>, digest: Digest, sha: Digest, n: nat, p: (string, string))
    requires n <= |ops| && p in EverLive(ops, digest, sha, n)
    ensures var s := Run(ops, digest, sha, n);
            Survives(s, digest, p)
            <==> !exists other :: other in EverLive(ops, digest, sha, n) && Displaces(s, digest, other, p)
  {
    EveryRunIsSafe(ops, digest, sha, n);
    var s := Run(ops, digest, sha, n);
    if !Survives(s, digest, p) {
      var other := (p.0, s.history[(p.0, digest(p.1))]);
      assert other in EverLive(ops, digest, sha, n) && Displaces(s, digest, other, p);
    }
  }

  /** `p` is not live and the place of its digest in history is taken by `other`. */
  ghost predicate Displaces(s: Store, digest: Digest, other: (string, string), p: (string, string)) {
    && !IsLive(s, p) && other.0 == p.0 && other.1 != p.1 && digest(other.1) == digest(p.1)
    && (p.0, digest(p.1)) in s.history && s.history[(p.0, digest(p.1))] == other.1
  }

  /** While no two sources of one name share a short digest, nothing is ever lost. */
  lemma {:induction false} NothingIsLost(ops: seq<Op>, digest: Digest, sha: Digest, n: nat, p: (string, string))
    requires n <= |ops| && p in EverLive(ops, digest, sha, n)
    requires forall q :: q in EverLive(ops, digest, sha, n) && q.0 == p.0 && digest(q.1) == digest(p.1) ==> q == p
    ensures Survives(Run(ops, digest, sha, n), digest, p)
  {
    OnlyCollisionsLose(ops, digest, sha, n, p);
  }

  /** Two sources of one name that share a digest: of three puts the second is lost. */
  lemma {:induction false} CollisionLoses(digest: Digest, sha: Digest, name: string, a: string, b: string, c: string)
    requires a != b && b != c && digest(a) == digest(b)
    ensures var ops := [Put(name, a, 3), Put(name, b, 3), Put(name, c, 3)];
            (name, b) in EverLive(ops, digest, sha, 3) && !Survives(Run(ops, digest, sha, 3), digest, (name, b))
  {
    var ops := [Put(name, a, 3), Put(name, b, 3), Put(name, c, 3)];
    PutInRun(ops, digest, sha, 0);
    PutInRun(ops, digest, sha, 1);
    PutInRun(ops, digest, sha, 2);
    LiveAfter(ops, digest, sha, 2, (name, b));
    assert (name, b) in EverLive(ops, digest, sha, 2);
  }

  lemma {:induction false} PutInRun(ops: seq<Op>, digest: Digest, sha: Digest, i: nat)
    requires i < |ops| && ops[i].Put? && ops[i].upTo >= 3
    ensures var s, next, name := Run(ops, digest, sha, i), Run(ops, digest, sha, i + 1), ops[i].name;
            && next.live == s.live[name := ops[i].source]
            && next.history == if name in s.live && (name, digest(s.live[name])) !in s.history
                               then s.history[(name, digest(s.live[name])) := s.live[name]] else s.history
  {
    PutAll(Run(ops, digest, sha, i), digest, sha, ops[i].name, ops[i].source);
  }

  lemma {:induction false} LiveAfter(ops: seq<Op>, digest: Digest, sha: Digest, n: nat, p: (string, string))
    requires 0 < n <= |ops| && IsLive(Run(ops, digest, sha, n), p)
    ensures p in EverLive(ops, digest, sha, n)
  {
    var s, op := Run(ops, digest, sha, n - 1), ops[n - 1];
    StepIsWrites(s, digest, sha, op);
    assert p in LivePairs(ApplyFirst(s, digest, WritesOf(s, digest, sha, op), Done(s, digest, sha, op)));
  }

  /** What a completed put leaves. */
  lemma {:induction false} PutAll(s: Store, digest: Digest, sha: Digest, name: string, source: string)
    ensures var writes := PutWrites(s, digest, sha, name, source); var next := ApplyFirst(s, digest, writes, |writes|);
            && |writes| <= 3
            && next.live == s.live[name := source]
            && next.meta == s.meta[name := Meta(Version(s, name) + 1, Some(sha(source)))]
            && next.history == if name in s.live && (name, digest(s.live[name])) !in s.history
                               then s.history[(name, digest(s.live[name])) := s.live[name]] else s.history
  {
    var writes := PutWrites(s, digest, sha, name, source);
    if |writes| == 3 {
      assert ApplyFirst(s, digest, writes, 1) == Apply(s, digest, writes[0]);
      assert ApplyFirst(s, digest, writes, 2) == Apply(ApplyFirst(s, digest, writes, 1), digest, writes[1]);
    } else {
      assert ApplyFirst(s, digest, writes, 1) == Apply(s, digest, writes[0]);
    }
  }

  /** What a completed delete leaves: no source, and a tombstone that keeps the version. */
  lemma {:induction false} DeleteAll(s: Store, digest: Digest, name: string)
    requires name in s.live
    ensures var writes := DeleteWrites(s, digest, name); var next := ApplyFirst(s, digest, writes, |writes|);
            && next.live == s.live - {name}
            && next.meta == s.meta[name := Meta(Version(s, name), None)]
            && next.history == if (name, digest(s.live[name])) !in s.history
                               then s.history[(name, digest(s.live[name])) := s.live[name]] else s.history
  {
    var writes := DeleteWrites(s, digest, name);
    assert ApplyFirst(s, digest, writes, 1) == Apply(s, digest, writes[0]);
    if |writes| == 3 {
      assert ApplyFirst(s, digest, writes, 2) == Apply(ApplyFirst(s, digest, writes, 1), digest, writes[1]);
    }
  }

  // ---- when a source is lost ------------------------------------------------------------------------------

  /** History keeps another source where `p` would be archived. */
  ghost predicate Taken(s: Store, digest: Digest, p: (string, string)) {
    (p.0, digest(p.1)) in s.history && s.history[(p.0, digest(p.1))] != p.1
  }

  /** The first `k` writes get past archiving: the live file of the name is replaced or removed. */
  predicate Reaches(s: Store, digest: Digest, op: Op, k: nat) { k > |ArchiveWrites(s, digest, op.name)| }

  /** The operation makes `p` live. */
  predicate Publishes(s: Store, digest: Digest, op: Op, k: nat, p: (string, string)) {
    op.Put? && p == (op.name, op.source) && Reaches(s, digest, op, k)
  }

  /** The operation takes the live source `p` out of its file while its place in history is taken. */
  ghost predicate Loses(s: Store, digest: Digest, op: Op, k: nat, p: (string, string)) {
    && IsLive(s, p) && Taken(s, digest, p)
    && op.name == p.0 && Reaches(s, digest, op, k) && !Publishes(s, digest, op, k, p)
  }

  /** What the first `k` writes of an operation leave live and in history. */
  lemma {:induction false} WritesDone(s: Store, digest: Digest, sha: Digest, op: Op, k: nat)
    requires k <= |WritesOf(s, digest, sha, op)|
    ensures var next, name := ApplyFirst(s, digest, WritesOf(s, digest, sha, op), k), op.name;
            && next.live == (if !Reaches(s, digest, op, k) then s.live
                             else if op.Put? then s.live[name := op.source] else s.live - {name})
            && next.history == if k > 0 && name in s.live && (name, digest(s.live[name])) !in s.history
                               then s.history[(name, digest(s.live[name])) := s.live[name]] else s.history
  {
    var writes := WritesOf(s, digest, sha, op);
    if k > 0 {
      WritesDone(s, digest, sha, op, k - 1);
      assert ApplyFirst(s, digest, writes, k)
          == Apply(ApplyFirst(s, digest, writes, k - 1), digest, writes[k - 1]);
    }
  }

  /** What they leave in the sidecars: the last write of an operation is its sidecar. */
  lemma {:induction false} MetaDone(s: Store, digest: Digest, sha: Digest, op: Op, k: nat)
    requires k <= |WritesOf(s, digest, sha, op)|
    ensures var name := op.name;
            ApplyFirst(s, digest, WritesOf(s, digest, sha, op), k).meta
            == if k < |WritesOf(s, digest, sha, op)| || k == 0 then s.meta
               else s.meta[name := if op.Put? then Meta(Version(s, name) + 1, Some(sha(op.source)))
                                   else Meta(Version(s, name), None)]
  {
    if k > 0 { MetaDone(s, digest, sha, op, k - 1); }
  }

  /** After an operation stopped anywhere, a source can be read back if and only if the operation made
      it live, or it could be read back before and the operation does not lose it. */
  lemma {:induction false} OpLosesExactly(s: Store, digest: Digest, sha: Digest, op: Op, k: nat, p: (string, string))
    requires k <= |WritesOf(s, digest, sha, op)|
    ensures Survives(ApplyFirst(s, digest, WritesOf(s, digest, sha, op), k), digest, p)
       <==> Publishes(s, digest, op, k, p) || (Survives(s, digest, p) && !Loses(s, digest, op, k, p))
  {
    WritesDone(s, digest, sha, op, k);
  }

  /** A completed put keeps the source it replaces if and only if that is the source put, or its digest
      is not in history under the name, or is there with the same source. */
  lemma {:induction false} PutKeepsExactly(s: Store, digest: Digest, sha: Digest, name: string, source: string)
    requires name in s.live
    ensures var writes := PutWrites(s, digest, sha, name, source); var key := (name, digest(s.live[name]));
            Survives(ApplyFirst(s, digest, writes, |writes|), digest, (name, s.live[name]))
            <==> source == s.live[name] || key !in s.history || s.history[key] == s.live[name]
  {
    PutAll(s, digest, sha, name, source);
  }

  /** A completed delete keeps the source it removes under the same condition. */
  lemma {:induction false} DeleteKeepsExactly(s: Store, digest: Digest, name: string)
    requires name in s.live
    ensures var writes := DeleteWrites(s, digest, name); var key := (name, digest(s.live[name]));
            Survives(ApplyFirst(s, digest, writes, |writes|), digest, (name, s.live[name]))
            <==> key !in s.history || s.history[key] == s.live[name]
  {
    DeleteAll(s, digest, name);
  }

  ghost predicate PublishesAt(ops: seq<Op>, digest: Digest, sha: Digest, i: nat, p: (string, string))
    requires i < |ops|
  {
    var s := Run(ops, digest, sha, i);
    Publishes(s, digest, ops[i], Done(s, digest, sha, ops[i]), p)
  }

  ghost predicate LosesAt(ops: seq<Op>, digest: Digest, sha: Digest, i: nat, p: (string, string))
    requires i < |ops|
  {
    var s := Run(ops, digest, sha, i);
    Loses(s, digest, ops[i], Done(s, digest, sha, ops[i]), p)
  }

  /** No operation from `i` on and before `n` loses `p`. */
  ghost predicate KeptFrom(ops: seq<Op>, digest: Digest, sha: Digest, i: nat, n: nat, p: (string, string))
    requires n <= |ops|
  {
    forall j {:trigger LosesAt(ops, digest, sha, j, p)} :: i <= j < n ==> !LosesAt(ops, digest, sha, j, p)
  }

  lemma {:induction false} RunStep(ops: seq<Op>, digest: Digest, sha: Digest, n: nat, p: (string, string))
    requires 0 < n <= |ops|
    ensures Survives(Run(ops, digest, sha, n), digest, p)
       <==> PublishesAt(ops, digest, sha, n - 1, p)
            || (Survives(Run(ops, digest, sha, n - 1), digest, p) && !LosesAt(ops, digest, sha, n - 1, p))
  {
    var s := Run(ops, digest, sha, n - 1);
    StepIsWrites(s, digest, sha, ops[n - 1]);
    OpLosesExactly(s, digest, sha, ops[n - 1], Done(s, digest, sha, ops[n - 1]), p);
  }

  /** Some operation before `n` made `p` live and none after it lost it. */
  ghost predicate PublishedAndKept(ops: seq<Op>, digest: Digest, sha: Digest, n: nat, p: (string, string))
    requires n <= |ops|
  {
    exists i {:trigger PublishesAt(ops, digest, sha, i, p)} ::
      0 <= i < n && PublishesAt(ops, digest, sha, i, p) && KeptFrom(ops, digest, sha, i + 1, n, p)
  }

  /** What holds, once set, until it is taken. */
  ghost predicate Flags(holds: seq<bool>, sets: seq<bool>, takes: seq<bool>) {
    && |sets| == |takes| && |holds| == |sets| + 1 && !holds[0]
    && forall i {:trigger FlagStep(holds, sets, takes, i)} :: 0 <= i < |sets| ==> FlagStep(holds, sets, takes, i)
  }

  ghost predicate FlagStep(holds: seq<bool>, sets: seq<bool>, takes: seq<bool>, i: nat)
    requires |sets| == |takes| && |holds| == |sets| + 1 && i < |sets|
  {
    holds[i + 1] <==> sets[i] || (holds[i] && !takes[i])
  }

  ghost predicate NoneTakes(takes: seq<bool>, i: nat, n: nat)
    requires n <= |takes|
  {
    forall j :: i <= j < n ==> !takes[j]
  }

  ghost predicate SetAndKept(sets: seq<bool>, takes: seq<bool>, n: nat)
    requires n <= |sets| == |takes|
  {
    exists i :: 0 <= i < n && sets[i] && NoneTakes(takes, i + 1, n)
  }

  /** It holds exactly when some step set it and none after that took it. */
  lemma {:induction false} LastSet(holds: seq<bool>, sets: seq<bool>, takes: seq<bool>, n: nat)
    requires Flags(holds, sets, takes) && n <= |sets|
    ensures holds[n] <==> SetAndKept(sets, takes, n)
  {
    if n > 0 {
      LastSet(holds, sets, takes, n - 1);
      assert FlagStep(holds, sets, takes, n - 1);
      if sets[n - 1] {
        assert NoneTakes(takes, n, n);
      }
      if holds[n - 1] && !takes[n - 1] {
        var i :| 0 <= i < n - 1 && sets[i] && NoneTakes(takes, i + 1, n - 1);
        assert NoneTakes(takes, i + 1, n);
      }
      if SetAndKept(sets, takes, n) {
        var i :| 0 <= i < n && sets[i] && NoneTakes(takes, i + 1, n);
        assert i < n - 1 ==> NoneTakes(takes, i + 1, n - 1);
      }
    }
  }

  /** The flags say where a run can read `p` back, makes it live and loses it. */
  ghost predicate FlagsOf(holds: seq<bool>, sets: seq<bool>, takes: seq<bool>, ops: seq<Op>, digest: Digest,
                          sha: Digest, p: (string, string)) {
    && |sets| == |takes| == |ops| && |holds| == |ops| + 1
    && (forall i :: 0 <= i < |holds| ==> holds[i] == Survives(Run(ops, digest, sha, i), digest, p))
    && (forall i :: 0 <= i < |sets| ==> sets[i] == PublishesAt(ops, digest, sha, i, p))
    && (forall i :: 0 <= i < |takes| ==> takes[i] == LosesAt(ops, digest, sha, i, p))
  }

  lemma {:induction false} FlagsExist(ops: seq<Op>, digest: Digest, sha: Digest, p: (string, string))
    returns (holds: seq<bool>, sets: seq<bool>, takes: seq<bool>)
    ensures FlagsOf(holds, sets, takes, ops, digest, sha, p)
  {
    holds := seq(|ops| + 1, i requires 0 <= i < |ops| + 1 => Survives(Run(ops, digest, sha, i), digest, p));
    sets := seq(|ops|, i requires 0 <= i < |ops| => PublishesAt(ops, digest, sha, i, p));
    takes := seq(|ops|, i requires 0 <= i < |ops| => LosesAt(ops, digest, sha, i, p));
  }

  lemma {:induction false} FlagsMove(holds: seq<bool>, sets: seq<bool>, takes: seq<bool>, ops: seq<Op>, digest: Digest,
                                     sha: Digest, p: (string, string), i: nat)
    requires FlagsOf(holds, sets, takes, ops, digest, sha, p) && i < |ops|
    ensures FlagStep(holds, sets, takes, i)
  {
    RunStep(ops, digest, sha, i + 1, p);
  }

  lemma {:induction false} FlagsHold(holds: seq<bool>, sets: seq<bool>, takes: seq<bool>, ops: seq<Op>, digest: Digest,
                                     sha: Digest, p: (string, string))
    requires FlagsOf(holds, sets, takes, ops, digest, sha, p)
    ensures Flags(holds, sets, takes)
  {
    forall i | 0 <= i < |sets| ensures FlagStep(holds, sets, takes, i) {
      FlagsMove(holds, sets, takes, ops, digest, sha, p, i);
    }
    assert holds[0] == Survives(Run(ops, digest, sha, 0), digest, p);
  }

  lemma {:induction false} NoneLosesIt(holds: seq<bool>, sets: seq<bool>, takes: seq<bool>, ops: seq<Op>,
                                       digest: Digest, sha: Digest, p: (string, string), i: nat, n: nat)
    requires FlagsOf(holds, sets, takes, ops, digest, sha, p) && i <= n <= |ops|
    ensures KeptFrom(ops, digest, sha, i, n, p) <==> NoneTakes(takes, i, n)
  {
    forall j | i <= j < n ensures LosesAt(ops, digest, sha, j, p) <==> takes[j] {}
  }

  lemma {:induction false} FlagsTell(holds: seq<bool>, sets: seq<bool>, takes: seq<bool>, ops: seq<Op>, digest: Digest,
                                     sha: Digest, p: (string, string), n: nat)
    requires FlagsOf(holds, sets, takes, ops, digest, sha, p) && n <= |ops|
    ensures PublishedAndKept(ops, digest, sha, n, p) <==> SetAndKept(sets, takes, n)
  {
    if PublishedAndKept(ops, digest, sha, n, p) {
      var i :| 0 <= i < n && PublishesAt(ops, digest, sha, i, p) && KeptFrom(ops, digest, sha, i + 1, n, p);
      NoneLosesIt(holds, sets, takes, ops, digest, sha, p, i + 1, n);
      assert sets[i];
    }
    if SetAndKept(sets, takes, n) {
      var i :| 0 <= i < n && sets[i] && NoneTakes(takes, i + 1, n);
      NoneLosesIt(holds, sets, takes, ops, digest, sha, p, i + 1, n);
      assert PublishesAt(ops, digest, sha, i, p);
    }
  }

  lemma {:induction false} FlagTells(holds: seq<bool>, sets: seq<bool>, takes: seq<bool>, ops: seq<Op>, digest: Digest,
                                     sha: Digest, p: (string, string), n: nat)
    requires FlagsOf(holds, sets, takes, ops, digest, sha, p) && n <= |ops|
    ensures Survives(Run(ops, digest, sha, n), digest, p) <==> holds[n]
  {
  }

  /** Over every run, wherever its operations stop: a source can be read back at the end if and only if
      some operation made it live and none after that lost it. */
  lemma {:induction false} SurvivesExactly(ops: seq<Op>, digest: Digest, sha: Digest, n: nat, p: (string, string))
    requires n <= |ops|
    ensures Survives(Run(ops, digest, sha, n), digest, p) <==> PublishedAndKept(ops, digest, sha, n, p)
  {
    var holds, sets, takes := FlagsExist(ops, digest, sha, p);
    FlagsHold(holds, sets, takes, ops, digest, sha, p);
    LastSet(holds, sets, takes, n);
    FlagTells(holds, sets, takes, ops, digest, sha, p, n);
    FlagsTell(holds, sets, takes, ops, digest, sha, p, n);
  }

  /** The operation replaces or removes its name's live source while that one's place is taken. */
  ghost predicate LosesLive(ops: seq<Op>, digest: Digest, sha: Digest, i: nat)
    requires i < |ops|
  {
    var s, name := Run(ops, digest, sha, i), ops[i].name;
    name in s.live && LosesAt(ops, digest, sha, i, (name, s.live[name]))
  }

  /** Whatever was live up to operation `n` can be read back then. */
  ghost predicate NothingLost(ops: seq<Op>, digest: Digest, sha: Digest, n: nat)
    requires n <= |ops|
  {
    forall p :: p in EverLive(ops, digest, sha, n) ==> Survives(Run(ops, digest, sha, n), digest, p)
  }

  lemma {:induction false} LiveDuringOp(s: Store, digest: Digest, sha: Digest, op: Op, k: nat, p: (string, string))
    requires k <= |WritesOf(s, digest, sha, op)|
    requires p in LiveDuring(s, digest, WritesOf(s, digest, sha, op), k)
    ensures IsLive(s, p) || Publishes(s, digest, op, k, p)
  {
    var writes := WritesOf(s, digest, sha, op);
    WritesDone(s, digest, sha, op, k);
    if p !in LivePairs(ApplyFirst(s, digest, writes, k)) { LiveDuringOp(s, digest, sha, op, k - 1, p); }
  }

  lemma {:induction false} EverLiveGrows(ops: seq<Op>, digest: Digest, sha: Digest, n: nat, p: (string, string))
    requires n < |ops| && p in EverLive(ops, digest, sha, n)
    ensures p in EverLive(ops, digest, sha, n + 1)
  {
  }

  lemma {:induction false} LosesOne(ops: seq<Op>, digest: Digest, sha: Digest, n: nat)
    requires 0 < n <= |ops| && LosesLive(ops, digest, sha, n - 1)
    ensures !NothingLost(ops, digest, sha, n)
  {
    var s, op := Run(ops, digest, sha, n - 1), ops[n - 1];
    var p := (op.name, s.live[op.name]);
    LiveAfter(ops, digest, sha, n - 1, p);
    EverLiveGrows(ops, digest, sha, n - 1, p);
    RunStep(ops, digest, sha, n, p);
  }

  lemma {:induction false} KeepsOne(ops: seq<Op>, digest: Digest, sha: Digest, n: nat, p: (string, string))
    requires 0 < n <= |ops| && NothingLost(ops, digest, sha, n - 1) && !LosesLive(ops, digest, sha, n - 1)
    requires p in EverLive(ops, digest, sha, n)
    ensures Survives(Run(ops, digest, sha, n), digest, p)
  {
    var s, op := Run(ops, digest, sha, n - 1), ops[n - 1];
    if p !in EverLive(ops, digest, sha, n - 1) { LiveDuringOp(s, digest, sha, op, Done(s, digest, sha, op), p); }
    RunStep(ops, digest, sha, n, p);
  }

  lemma {:induction false} OpKeepsAll(ops: seq<Op>, digest: Digest, sha: Digest, n: nat)
    requires 0 < n <= |ops| && NothingLost(ops, digest, sha, n - 1)
    ensures NothingLost(ops, digest, sha, n) <==> !LosesLive(ops, digest, sha, n - 1)
  {
    if LosesLive(ops, digest, sha, n - 1) {
      LosesOne(ops, digest, sha, n);
    } else {
      var ever, next := EverLive(ops, digest, sha, n), Run(ops, digest, sha, n);
      forall p | p in ever ensures Survives(next, digest, p) { KeepsOne(ops, digest, sha, n, p); }
    }
  }

  ghost predicate NeverLost(ops: seq<Op>, digest: Digest, sha: Digest, n: nat)
    requires n <= |ops|
  {
    forall m {:trigger NothingLost(ops, digest, sha, m)} :: 0 <= m <= n ==> NothingLost(ops, digest, sha, m)
  }

  ghost predicate NoneLoses(ops: seq<Op>, digest: Digest, sha: Digest, n: nat)
    requires n <= |ops|
  {
    forall i {:trigger LosesLive(ops, digest, sha, i)} :: 0 <= i < n ==> !LosesLive(ops, digest, sha, i)
  }

  /** Nothing is lost at any point of a run if and only if no operation replaces or removes a live
      source while another one holds its digest's place in history. */
  lemma {:induction false} NothingLostExactly(ops: seq<Op>, digest: Digest, sha: Digest, n: nat)
    requires n <= |ops|
    ensures NeverLost(ops, digest, sha, n) <==> NoneLoses(ops, digest, sha, n)
  {
    LossTold(ops, digest, sha, n);
  }

  ghost predicate LostTold(ops: seq<Op>, digest: Digest, sha: Digest, n: nat)
    requires n <= |ops|
  {
    NeverLost(ops, digest, sha, n) <==> NoneLoses(ops, digest, sha, n)
  }

  lemma {:induction false} LossTold(ops: seq<Op>, digest: Digest, sha: Digest, n: nat)
    requires n <= |ops|
    ensures LostTold(ops, digest, sha, n)
  {
    if n == 0 {
      NothingLostYet(ops, digest, sha, n);
    } else {
      LossTold(ops, digest, sha, n - 1);
      LossNext(ops, digest, sha, n);
    }
  }

  lemma {:induction false} LossNext(ops: seq<Op>, digest: Digest, sha: Digest, n: nat)
    requires 0 < n <= |ops| && LostTold(ops, digest, sha, n - 1)
    ensures LostTold(ops, digest, sha, n)
  {
    NeverStep(ops, digest, sha, n);
    NoneStep(ops, digest, sha, n);
  }

  lemma {:induction false} NothingLostYet(ops: seq<Op>, digest: Digest, sha: Digest, n: nat)
    requires n == 0
    ensures LostTold(ops, digest, sha, n)
  {
    assert NothingLost(ops, digest, sha, 0);
  }

  lemma {:induction false} NeverSplit(ops: seq<Op>, digest: Digest, sha: Digest, n: nat)
    requires 0 < n <= |ops|
    ensures NeverLost(ops, digest, sha, n) <==> NeverLost(ops, digest, sha, n - 1) && NothingLost(ops, digest, sha, n)
    ensures NeverLost(ops, digest, sha, n - 1) ==> NothingLost(ops, digest, sha, n - 1)
  {
  }

  lemma {:induction false} NeverStep(ops: seq<Op>, digest: Digest, sha: Digest, n: nat)
    requires 0 < n <= |ops|
    ensures NeverLost(ops, digest, sha, n)
       <==> NeverLost(ops, digest, sha, n - 1) && !LosesLive(ops, digest, sha, n - 1)
  {
    NeverSplit(ops, digest, sha, n);
    if NeverLost(ops, digest, sha, n - 1) { OpKeepsAll(ops, digest, sha, n); }
  }

  lemma {:induction false} NoneStep(ops: seq<Op>, digest: Digest, sha: Digest, n: nat)
    requires 0 < n <= |ops|
    ensures NoneLoses(ops, digest, sha, n)
       <==> NoneLoses(ops, digest, sha, n - 1) && !LosesLive(ops, digest, sha, n - 1)
  {
  }

  // ---- versions -------------------------------------------------------------------------------------------

  /** The put gets all its writes done. */
  predicate Completed(ops: seq<Op>, digest: Digest, sha: Digest, i: nat)
    requires i < |ops|
  {
    var s := Run(ops, digest, sha, i);
    ops[i].Put? && ops[i].upTo >= |WritesOf(s, digest, sha, ops[i])|
  }

  /** The version a put gives its source. */
  function VersionGiven(ops: seq<Op>, digest: Digest, sha: Digest, i: nat): nat
    requires i < |ops|
  {
    Version(Run(ops, digest, sha, i), ops[i].name) + 1
  }

  lemma {:induction false} WritesKeepVersion(s: Store, digest: Digest, sha: Digest, op: Op, k: nat, name: string)
    requires k <= |WritesOf(s, digest, sha, op)|
    ensures Version(ApplyFirst(s, digest, WritesOf(s, digest, sha, op), k), name) >= Version(s, name)
  {
    if k > 0 { WritesKeepVersion(s, digest, sha, op, k - 1, name); }
  }

  ghost predicate VersionsOf(v: seq<nat>, ops: seq<Op>, digest: Digest, sha: Digest, name: string) {
    |v| == |ops| + 1 && forall i :: 0 <= i < |v| ==> v[i] == Version(Run(ops, digest, sha, i), name)
  }

  lemma {:induction false} VersionsExist(ops: seq<Op>, digest: Digest, sha: Digest, name: string) returns (v: seq<nat>)
    ensures VersionsOf(v, ops, digest, sha, name)
  {
    v := seq(|ops| + 1, i requires 0 <= i < |ops| + 1 => Version(Run(ops, digest, sha, i), name));
  }

  ghost predicate Climbing(v: seq<nat>) {
    forall i {:trigger Climbs(v, i)} :: 0 <= i < |v| - 1 ==> Climbs(v, i)
  }

  ghost predicate Climbs(v: seq<nat>, i: nat)
    requires i + 1 < |v|
  {
    v[i] <= v[i + 1]
  }

  lemma {:induction false} ClimbsTo(v: seq<nat>, m: nat, n: nat)
    requires m <= n < |v| && Climbing(v)
    ensures v[m] <= v[n]
    decreases n - m
  {
    if m < n {
      ClimbsTo(v, m, n - 1);
      assert Climbs(v, n - 1);
    }
  }

  lemma {:induction false} VersionClimbs(v: seq<nat>, ops: seq<Op>, digest: Digest, sha: Digest, name: string, i: nat)
    requires VersionsOf(v, ops, digest, sha, name) && i < |ops|
    ensures Climbs(v, i)
  {
    OpKeepsVersion(ops, digest, sha, i + 1, name);
  }

  lemma {:induction false} VersionsClimb(v: seq<nat>, ops: seq<Op>, digest: Digest, sha: Digest, name: string)
    requires VersionsOf(v, ops, digest, sha, name)
    ensures Climbing(v)
  {
    forall i | 0 <= i < |v| - 1 ensures Climbs(v, i) { VersionClimbs(v, ops, digest, sha, name, i); }
  }

  lemma {:induction false} VersionsTell(v: seq<nat>, ops: seq<Op>, digest: Digest, sha: Digest, name: string, m: nat,
                                        n: nat)
    requires VersionsOf(v, ops, digest, sha, name) && m < |v| && n < |v| && v[m] <= v[n]
    ensures Version(Run(ops, digest, sha, m), name) <= Version(Run(ops, digest, sha, n), name)
  {
  }

  lemma {:induction false} VersionsGrow(ops: seq<Op>, digest: Digest, sha: Digest, m: nat, n: nat, name: string)
    requires m <= n <= |ops|
    ensures Version(Run(ops, digest, sha, m), name) <= Version(Run(ops, digest, sha, n), name)
  {
    var v := VersionsExist(ops, digest, sha, name);
    VersionsClimb(v, ops, digest, sha, name);
    ClimbsTo(v, m, n);
    VersionsTell(v, ops, digest, sha, name, m, n);
  }

  lemma {:induction false} OpKeepsVersion(ops: seq<Op>, digest: Digest, sha: Digest, n: nat, name: string)
    requires 0 < n <= |ops|
    ensures Version(Run(ops, digest, sha, n - 1), name) <= Version(Run(ops, digest, sha, n), name)
  {
    var s := Run(ops, digest, sha, n - 1);
    StepIsWrites(s, digest, sha, ops[n - 1]);
    WritesKeepVersion(s, digest, sha, ops[n - 1], Done(s, digest, sha, ops[n - 1]), name);
  }

  lemma {:induction false} CompletedVersion(ops: seq<Op>, digest: Digest, sha: Digest, i: nat)
    requires i < |ops| && Completed(ops, digest, sha, i)
    ensures VersionGiven(ops, digest, sha, i) <= Version(Run(ops, digest, sha, i + 1), ops[i].name)
  {
    PutAll(Run(ops, digest, sha, i), digest, sha, ops[i].name, ops[i].source);
  }

  /** After a completed put every later put of the name carries a greater version, whatever happens
      in between: stopped operations, deletes and the tombstones they leave. */
  lemma {:induction false} VersionsIncrease(ops: seq<Op>, digest: Digest, sha: Digest, i: nat, j: nat)
    requires i < j < |ops| && ops[i].name == ops[j].name
    requires Completed(ops, digest, sha, i) && ops[j].Put?
    ensures VersionGiven(ops, digest, sha, i) < VersionGiven(ops, digest, sha, j)
  {
    CompletedVersion(ops, digest, sha, i);
    VersionsGrow(ops, digest, sha, i + 1, j, ops[i].name);
  }
}
