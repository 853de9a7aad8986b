/** The reader cache as a state machine over its locked steps, and what every run of it keeps
    (app/reader_cache.py). `E` identifies the entries, one reader each. */
module CacheModel {
  import opened Sequences

  /** A resolved dump path. */
  type Key = string

  /** `order` lists the cached keys, least recently acquired first; `refs`, `evicted` and
      `closes` cover every entry ever made, cached or not. */
  datatype State<!E(==)> = State(order: seq<Key>, table: map<Key, E>,
                                 refs: map<E, int>, evicted: set<E>, closes: map<E, nat>)

  function Empty<E(==)>(): State<E> { State([], map[], map[], {}, map[]) }

  function Without(order: seq<Key>, k: Key): (r: seq<Key>)
    ensures forall x :: x in r <==> x in order && x != k
  {
    if order == [] then []
    else
      var init := Without(order[..|order| - 1], k);
      if order[|order| - 1] == k then init else init + [order[|order| - 1]]
  }

  ghost predicate Distinct<T>(s: seq<T>) {
    forall i, j :: 0 <= i < j < |s| ==> s[i] != s[j]
  }

  /** Taking a key out of an order without repetition takes exactly one place out. */
  lemma {:induction false} OneLess(order: seq<Key>, k: Key)
    requires Distinct(order)
    ensures Distinct(Without(order, k))
    ensures |Without(order, k)| == |order| - if k in order then 1 else 0
  {
    if order != [] {
      var init, last := order[..|order| - 1], order[|order| - 1];
      OneLess(init, k);
      assert last !in init;
      assert k in order <==> k in init || k == last;
    }
  }

  lemma {:induction false} WithoutFirst(order: seq<Key>)
    requires Distinct(order) && order != []
    ensures Without(order, order[0]) == order[1..]
  {
    var n := |order| - 1;
    if n > 0 {
      WithoutFirst(order[..n]);
      assert order[1..] == order[..n][1..] + [order[n]];
    }
  }

  function Removed<E>(table: map<Key, E>, k: Key): (r: map<Key, E>)
    ensures forall x :: x in r <==> x in table && x != k
    ensures forall x :: x in r ==> r[x] == table[x]
  {
    map x | x in table && x != k :: table[x]
  }

  /** An entry's count changes by `d`. */
  ghost function Counted<E>(s: State<E>, e: E, d: int): State<E>
    requires e in s.refs
  {
    s.(refs := s.refs[e := s.refs[e] + d])
  }

  /** An entry's reader is closed once more. */
  ghost function Closed<E>(s: State<E>, e: E): State<E>
    requires e in s.closes
  {
    s.(closes := s.closes[e := s.closes[e] + 1])
  }

  /** An entry leaves the cache: its reader is closed when idle, else when the last holder
      releases it. */
  ghost function Drop<E>(s: State<E>, k: Key): State<E>
    requires k in s.table && s.table[k] in s.refs && s.table[k] in s.closes
  {
    var e := s.table[k];
    var t := s.(order := Without(s.order, k), table := Removed(s.table, k));
    if s.refs[e] > 0 then t.(evicted := t.evicted + {e}) else Closed(t, e)
  }

  /** The order lists each cached key once, and every cached key has an entry with a count. */
  ghost predicate Known<E>(s: State<E>) {
    && Distinct(s.order)
    && (forall k :: k in s.order <==> k in s.table)
    && (forall k :: k in s.table ==> s.table[k] in s.refs && s.table[k] in s.closes)
  }

  /** Oldest entries are dropped until at most `max` are left. */
  ghost function Evict<E>(s: State<E>, max: nat): State<E>
    requires Known(s)
    decreases |s.order|
  {
    if |s.order| <= max then s
    else
      assert s.order[0] in s.table;
      OneLess(s.order, s.order[0]);
      Evict(Drop(s, s.order[0]), max)
  }

  lemma {:induction false} DropKnown<E>(s: State<E>, k: Key)
    requires Known(s) && k in s.table
    ensures Known(Drop(s, k)) && |Drop(s, k).order| == |s.order| - 1
  {
    OneLess(s.order, k);
  }

  lemma {:induction false} EvictOne<E>(s: State<E>, max: nat)
    requires Known(s) && |s.order| > max
    ensures s.order[0] in s.table && Known(Drop(s, s.order[0])) && |Drop(s, s.order[0]).order| < |s.order|
    ensures Evict(s, max) == Evict(Drop(s, s.order[0]), max)
  {
    assert s.order[0] in s.table;
    OneLess(s.order, s.order[0]);
  }

  lemma {:induction false} EvictFits<E>(s: State<E>, max: nat)
    requires Known(s)
    ensures Known(Evict(s, max)) && |Evict(s, max).order| <= max
    ensures Evict(s, max).refs == s.refs && Evict(s, max).closes.Keys == s.closes.Keys
    decreases |s.order|
  {
    if |s.order| > max {
      assert s.order[0] in s.table;
      OneLess(s.order, s.order[0]);
      EvictFits(Drop(s, s.order[0]), max);
    }
  }

  /** The entry for `k` is made (as `e`) or moved to the end; it gains a holder; then the cache
      is trimmed. */
  ghost function Acquired<E>(s: State<E>, max: nat, k: Key, e: E): State<E>
    requires Known(s)
  {
    Evict(Held(s, k, e), max)
  }

  ghost function Held<E>(s: State<E>, k: Key, e: E): (t: State<E>)
    requires Known(s)
    ensures Known(t)
  {
    OneLess(s.order, k);
    if k in s.table then
      Counted(s, s.table[k], 1).(order := Without(s.order, k) + [k])
    else
      s.(order := s.order + [k], table := s.table[k := e], refs := s.refs[e := 1], closes := s.closes[e := 0])
  }

  lemma {:induction false} HeldAgain<E>(s: State<E>, k: Key, e: E)
    requires Known(s) && k in s.table && e == s.table[k]
    ensures var t := Held(s, k, e);
            && t.order == Without(s.order, k) + [k] && t.table == s.table
            && (var c := Counted(s, e, 1); t.refs == c.refs && t.evicted == c.evicted && t.closes == c.closes)
  {
  }

  lemma {:induction false} HeldFirst<E>(s: State<E>, k: Key, e: E)
    requires Known(s) && k !in s.table
    ensures var t := Held(s, k, e);
            && t.order == s.order + [k] && t.table == s.table[k := e]
            && t.refs == s.refs[e := 1] && t.evicted == s.evicted && t.closes == s.closes[e := 0]
  {
  }

  /** A holder lets go; a dropped entry's reader is closed with the last one. */
  ghost function Released<E>(s: State<E>, e: E): State<E>
    requires e in s.refs && e in s.closes
  {
    var t := Counted(s, e, -1);
    if t.refs[e] <= 0 && e in t.evicted then Closed(t, e) else t
  }

  ghost function Invalidated<E>(s: State<E>, k: Key): State<E>
    requires Known(s)
  {
    if k in s.table then Drop(s, k) else s
  }

  // ---- the invariant --------------------------------------------------------------------------

  ghost predicate Cached<E>(s: State<E>, e: E) { exists k :: k in s.table && s.table[k] == e }

  /** What every step keeps, `held` being the handles given out and not yet released. */
  ghost predicate Inv<E>(s: State<E>, held: multiset<E>) {
    && Known(s)
    && s.refs.Keys == s.closes.Keys && s.evicted <= s.refs.Keys
    && (forall k, l :: k in s.table && l in s.table && s.table[k] == s.table[l] ==> k == l)
    && (forall e :: e in held ==> e in s.refs)
    && (forall e :: e in s.refs ==> s.refs[e] == held[e])
    && (forall e :: e in s.refs ==> EntryOk(s, e))
  }

  /** A cached entry's reader is open; any other entry's is open exactly while it is held, and
      was closed once otherwise. */
  ghost predicate EntryOk<E>(s: State<E>, e: E)
    requires e in s.refs && s.refs.Keys == s.closes.Keys
  {
    if Cached(s, e) then e !in s.evicted && s.closes[e] == 0
    else if s.refs[e] > 0 then e in s.evicted && s.closes[e] == 0
    else s.closes[e] == 1
  }

  lemma {:induction false} DropKeepsInv<E>(s: State<E>, held: multiset<E>, k: Key)
    requires Inv(s, held) && k in s.table
    ensures Inv(Drop(s, k), held)
    ensures |Drop(s, k).order| == |s.order| - 1
  {
    var e, t := s.table[k], Drop(s, k);
    OneLess(s.order, k);
    assert Cached(s, e);
    assert !Cached(t, e);
    forall f | f in t.refs ensures EntryOk(t, f) {
      assert EntryOk(s, f);
      if f != e { StillCached(s, k, f); }
    }
  }

  lemma {:induction false} StillCached<E>(s: State<E>, k: Key, f: E)
    requires Known(s) && k in s.table && f != s.table[k]
    ensures Cached(Drop(s, k), f) <==> Cached(s, f)
  {
    var t := Drop(s, k);
    if Cached(s, f) {
      var l :| l in s.table && s.table[l] == f;
      assert l in t.table && t.table[l] == f;
    }
    if Cached(t, f) {
      var l :| l in t.table && t.table[l] == f;
      assert s.table[l] == f;
    }
  }

  lemma {:induction false} EvictKeepsInv<E>(s: State<E>, held: multiset<E>, max: nat)
    requires Inv(s, held)
    ensures Inv(Evict(s, max), held) && |Evict(s, max).order| <= max
    decreases |s.order|
  {
    if |s.order| > max {
      assert s.order[0] in s.table;
      DropKeepsInv(s, held, s.order[0]);
      EvictKeepsInv(Drop(s, s.order[0]), held, max);
    }
  }

  lemma {:induction false} HeldKeepsInv<E>(s: State<E>, held: multiset<E>, k: Key, e: E)
    requires Inv(s, held) && (k in s.table ==> e == s.table[k]) && (k !in s.table ==> e !in s.refs)
    ensures Inv(Held(s, k, e), held + multiset{e})
    ensures |Held(s, k, e).order| <= |s.order| + 1
  {
    var t := Held(s, k, e);
    HeldOrder(s, k, e);
    forall f | f in t.refs ensures EntryOk(t, f) && t.refs[f] == (held + multiset{e})[f] {
      HeldEntryOk(s, held, k, e, f);
    }
  }

  lemma {:induction false} HeldOrder<E>(s: State<E>, k: Key, e: E)
    requires Known(s) && (k in s.table ==> e == s.table[k]) && (k !in s.table ==> e !in s.refs)
    requires forall k, l :: k in s.table && l in s.table && s.table[k] == s.table[l] ==> k == l
    ensures var t := Held(s, k, e);
            && |t.order| <= |s.order| + 1
            && forall l, m :: l in t.table && m in t.table && t.table[l] == t.table[m] ==> l == m
  {
    var t := Held(s, k, e);
    OneLess(s.order, k);
    forall l, m | l in t.table && m in t.table && t.table[l] == t.table[m] ensures l == m {
      assert l in s.table ==> s.table[l] in s.refs;
      assert m in s.table ==> s.table[m] in s.refs;
    }
  }

  lemma {:induction false} HeldEntryOk<E>(s: State<E>, held: multiset<E>, k: Key, e: E, f: E)
    requires Inv(s, held) && (k in s.table ==> e == s.table[k]) && (k !in s.table ==> e !in s.refs)
    requires f in Held(s, k, e).refs
    ensures Held(s, k, e).refs.Keys == Held(s, k, e).closes.Keys
    ensures EntryOk(Held(s, k, e), f) && Held(s, k, e).refs[f] == (held + multiset{e})[f]
  {
    var t := Held(s, k, e);
    if f == e {
      assert t.table[k] == e && Cached(t, e);
      assert k in s.table ==> EntryOk(s, e) && Cached(s, e);
      assert e !in s.refs ==> e !in held;
    } else {
      assert EntryOk(s, f);
      CachedToo(s, k, e, f);
    }
  }

  lemma {:induction false} CachedToo<E>(s: State<E>, k: Key, e: E, f: E)
    requires Known(s) && f != e && (k in s.table ==> e == s.table[k])
    ensures Cached(Held(s, k, e), f) <==> Cached(s, f)
  {
    var t := Held(s, k, e);
    if Cached(s, f) {
      var l :| l in s.table && s.table[l] == f;
      assert t.table[l] == f;
    }
    if Cached(t, f) {
      var l :| l in t.table && t.table[l] == f;
      assert l in s.table && s.table[l] == f;
    }
  }

  lemma {:induction false} AcquiredKeepsInv<E>(s: State<E>, held: multiset<E>, max: nat, k: Key, e: E)
    requires Inv(s, held) && (if k in s.table then e == s.table[k] else e !in s.refs)
    ensures Inv(Acquired(s, max, k, e), held + multiset{e}) && |Acquired(s, max, k, e).order| <= max
  {
    HeldKeepsInv(s, held, k, e);
    EvictKeepsInv(Held(s, k, e), held + multiset{e}, max);
  }

  lemma {:induction false} ReleasedKeepsInv<E>(s: State<E>, held: multiset<E>, e: E)
    requires Inv(s, held) && e in held
    ensures Inv(Released(s, e), held - multiset{e})
    ensures Released(s, e).order == s.order
  {
    var t := Released(s, e);
    forall f | f in t.refs ensures EntryOk(t, f) {
      assert EntryOk(s, f);
      assert Cached(t, f) <==> Cached(s, f);
    }
  }

  // ---- every run --------------------------------------------------------------------------------

  /** One locked step. `Acquire` makes entry `e` when the path is not cached; opening a dump may
      fail, which changes nothing. */
  datatype Op<!E(==)> = Acquire(key: Key, e: E) | OpenFails(key: Key) | Release(e: E)
                      | Invalidate(key: Key) | Shutdown

  datatype Config<!E(==)> = Config(s: State<E>, held: multiset<E>)

  ghost predicate Legal<E>(c: Config<E>, op: Op<E>) {
    match op
    case Acquire(k, e) => if k in c.s.table then e == c.s.table[k] else e !in c.s.refs
    case OpenFails(k) => k !in c.s.table
    case Release(e) => e in c.held
    case _ => true
  }

  ghost function Step<E>(c: Config<E>, max: nat, op: Op<E>): Config<E>
    requires Inv(c.s, c.held) && Legal(c, op)
  {
    match op
    case Acquire(k, e) => Config(Acquired(c.s, max, k, e), c.held + multiset{e})
    case OpenFails(k) => c
    case Release(e) => Config(Released(c.s, e), c.held - multiset{e})
    case Invalidate(k) => Config(Invalidated(c.s, k), c.held)
    case Shutdown => Config(Evict(c.s, 0), c.held)
  }

  lemma {:induction false} StepKeepsInv<E>(c: Config<E>, max: nat, op: Op<E>)
    requires Inv(c.s, c.held) && |c.s.order| <= max && Legal(c, op)
    ensures var d := Step(c, max, op); Inv(d.s, d.held) && |d.s.order| <= max
  {
    match op
    case Acquire(k, e) => AcquiredKeepsInv(c.s, c.held, max, k, e);
    case OpenFails(k) =>
    case Release(e) => ReleasedKeepsInv(c.s, c.held, e);
    case Invalidate(k) => if k in c.s.table { DropKeepsInv(c.s, c.held, k); }
    case Shutdown => EvictKeepsInv(c.s, c.held, 0);
  }

  /** The configuration after the steps `ops` from the empty cache, if they are legal. */
  ghost function After<E>(max: nat, ops: seq<Op<E>>): (r: Option<Config<E>>)
    ensures r.Some? ==> Inv(r.value.s, r.value.held) && |r.value.s.order| <= max
  {
    if ops == [] then Some(Config(Empty(), multiset{}))
    else
      var before := After(max, ops[..|ops| - 1]);
      if before.None? || !Legal(before.value, ops[|ops| - 1]) then None
      else
        StepKeepsInv(before.value, max, ops[|ops| - 1]);
        Some(Step(before.value, max, ops[|ops| - 1]))
  }

  /** Over every interleaving of acquires, failed opens, releases, invalidations and shutdowns in
      which only held entries are released: no reader is closed while it is held, none is closed
      twice, a reader is open exactly while it is cached or held (nothing leaks), and the cache
      never exceeds its capacity. */
  lemma {:induction false} EveryRun<E>(max: nat, ops: seq<Op<E>>)
    requires After(max, ops).Some?
    ensures var c := After(max, ops).value;
            && |c.s.order| <= max
            && forall e :: e in c.s.refs ==>
                 && (e in c.held ==> c.s.closes[e] == 0)
                 && 0 <= c.s.closes[e] <= 1
                 && (c.s.closes[e] == 0 <==> Cached(c.s, e) || e in c.held)
  {
    var c := After(max, ops).value;
    forall e | e in c.s.refs
      ensures (e in c.held ==> c.s.closes[e] == 0) && 0 <= c.s.closes[e] <= 1
              && (c.s.closes[e] == 0 <==> Cached(c.s, e) || e in c.held)
    {
      assert EntryOk(c.s, e);
    }
  }

  lemma {:induction false} NothingCached<E>(s: State<E>, held: multiset<E>)
    requires Inv(s, held) && s.order == [] && held == multiset{}
    ensures forall e :: e in s.closes ==> s.closes[e] == 1
  {
    forall e | e in s.closes ensures s.closes[e] == 1 {
      assert e in s.refs && EntryOk(s, e);
      assert forall k :: k in s.table ==> k in s.order;
    }
  }

  /** Once nothing is held, a shutdown leaves every reader ever opened closed exactly once. */
  lemma {:induction false} ShutdownClosesAll<E>(max: nat, ops: seq<Op<E>>)
    requires After(max, ops).Some? && After(max, ops).value.held == multiset{}
    ensures var s := Step(After(max, ops).value, max, Shutdown).s;
            s.order == [] && forall e :: e in s.closes ==> s.closes[e] == 1
  {
    var c := After(max, ops).value;
    EvictKeepsInv(c.s, c.held, 0);
    NothingCached(Evict(c.s, 0), c.held);
  }

  // ---- least recently acquired goes first ---------------------------------------------------------

  /** The step that last acquired `k`, -1 for none. */
  ghost function LastUse<E>(ops: seq<Op<E>>, k: Key): int {
    if ops == [] then -1
    else
      var op := ops[|ops| - 1];
      if op.Acquire? && op.key == k then |ops| - 1 else LastUse(ops[..|ops| - 1], k)
  }

  /** The cached keys stand in the order of their last acquire. */
  ghost predicate ByUse<E>(order: seq<Key>, ops: seq<Op<E>>) {
    forall i, j :: 0 <= i < j < |order| ==> LastUse(ops, order[i]) < LastUse(ops, order[j])
  }

  lemma {:induction false} WithoutByUse<E>(order: seq<Key>, k: Key, ops: seq<Op<E>>)
    requires ByUse(order, ops)
    ensures ByUse(Without(order, k), ops)
  {
    if order != [] {
      var init, last := order[..|order| - 1], order[|order| - 1];
      WithoutByUse(init, k, ops);
      forall i | 0 <= i < |Without(init, k)| ensures LastUse(ops, Without(init, k)[i]) < LastUse(ops, last) {
        assert Without(init, k)[i] in init;
        var m :| 0 <= m < |init| && init[m] == Without(init, k)[i];
        assert order[m] == init[m];
      }
    }
  }

  lemma {:induction false} EvictByUse<E>(s: State<E>, max: nat, ops: seq<Op<E>>)
    requires Known(s) && ByUse(s.order, ops)
    ensures ByUse(Evict(s, max).order, ops)
    decreases |s.order|
  {
    if |s.order| > max {
      assert s.order[0] in s.table;
      OneLess(s.order, s.order[0]);
      WithoutByUse(s.order, s.order[0], ops);
      EvictByUse(Drop(s, s.order[0]), max, ops);
    }
  }

  lemma {:induction false} LastUseBefore<E>(ops: seq<Op<E>>, k: Key)
    ensures -1 <= LastUse(ops, k) < |ops|
  {
    if ops != [] { LastUseBefore(ops[..|ops| - 1], k); }
  }

  /** Acquiring a key moves it behind all others. */
  lemma {:induction false} HeldByUse<E>(s: State<E>, k: Key, e: E, ops: seq<Op<E>>)
    requires Known(s) && ByUse(s.order, ops)
    ensures ByUse(Held(s, k, e).order, ops + [Acquire(k, e)])
  {
    var t, later := Held(s, k, e), ops + [Acquire(k, e)];
    WithoutByUse(s.order, k, ops);
    assert later[..|ops|] == ops;
    var init := t.order[..|t.order| - 1];
    assert k !in init && ByUse(init, ops);
    NewestLast(init, k, e, ops);
    SplitLast(t.order);
  }

  lemma {:induction false} NewestLast<E>(init: seq<Key>, k: Key, e: E, ops: seq<Op<E>>)
    requires k !in init && ByUse(init, ops)
    ensures ByUse(init + [k], ops + [Acquire(k, e)])
  {
    var all, later := init + [k], ops + [Acquire(k, e)];
    assert later[..|ops|] == ops;
    forall i | 0 <= i < |init| ensures LastUse(later, init[i]) == LastUse(ops, init[i]) < LastUse(later, k) {
      assert init[i] in init;
      LastUseBefore(ops, init[i]);
    }
    forall i, j | 0 <= i < j < |all| ensures LastUse(later, all[i]) < LastUse(later, all[j]) {
      assert all[i] == init[i];
      if j < |init| { assert all[j] == init[j]; }
    }
  }

  lemma {:induction false} SameUses<E>(ops: seq<Op<E>>, op: Op<E>, order: seq<Key>)
    requires !op.Acquire? && ByUse(order, ops)
    ensures ByUse(order, ops + [op])
  {
    var later := ops + [op];
    assert later[..|ops|] == ops;
    forall i, j | 0 <= i < j < |order| ensures LastUse(later, order[i]) < LastUse(later, order[j]) {
      assert LastUse(later, order[i]) == LastUse(ops, order[i]);
      assert LastUse(later, order[j]) == LastUse(ops, order[j]);
    }
  }

  lemma {:induction false} StepByUse<E>(c: Config<E>, max: nat, op: Op<E>, ops: seq<Op<E>>)
    requires Inv(c.s, c.held) && Legal(c, op) && ByUse(c.s.order, ops)
    ensures ByUse(Step(c, max, op).s.order, ops + [op])
  {
    if op.Acquire? {
      HeldByUse(c.s, op.key, op.e, ops);
      EvictByUse(Held(c.s, op.key, op.e), max, ops + [op]);
    } else {
      if op.Invalidate? { WithoutByUse(c.s.order, op.key, ops); }
      if op.Shutdown? { EvictByUse(c.s, 0, ops); }
      SameUses(ops, op, Step(c, max, op).s.order);
    }
  }

  lemma {:induction false} OrderByUse<E>(max: nat, ops: seq<Op<E>>)
    requires After(max, ops).Some?
    ensures ByUse(After(max, ops).value.s.order, ops)
  {
    if ops != [] {
      var init, op := ops[..|ops| - 1], ops[|ops| - 1];
      OrderByUse(max, init);
      SplitLast(ops);
      StepByUse(After(max, init).value, max, op, init);
    }
  }

  /** An acquire drops at most one entry, and only when it overfills the cache: the one whose key
      was acquired longest ago, never the key just acquired. */
  lemma {:induction false} EvictsLeastRecent<E>(max: nat, ops: seq<Op<E>>, k: Key, e: E)
    requires max >= 1 && After(max, ops).Some? && Legal(After(max, ops).value, Acquire(k, e))
    ensures var c := After(max, ops).value;
            var t, next := Held(c.s, k, e), Step(c, max, Acquire(k, e)).s;
            if |t.order| <= max then next == t
            else
              var victim := t.order[0];
              && victim in t.table && victim != k && victim !in next.table && k in next.table
              && next == Drop(t, victim)
              && forall x :: x in t.order && x != victim ==>
                   LastUse(ops + [Acquire(k, e)], victim) < LastUse(ops + [Acquire(k, e)], x)
  {
    var c := After(max, ops).value;
    HeldKeepsInv(c.s, c.held, k, e);
    OrderByUse(max, ops);
    HeldByUse(c.s, k, e, ops);
    if |Held(c.s, k, e).order| > max {
      EvictsFirst(Held(c.s, k, e), c.held + multiset{e}, max, ops + [Acquire(k, e)]);
    }
  }

  lemma {:induction false} EvictsFirst<E>(t: State<E>, held: multiset<E>, max: nat, ops: seq<Op<E>>)
    requires max >= 1 && Inv(t, held) && |t.order| == max + 1 && ByUse(t.order, ops)
    ensures var victim, last := t.order[0], t.order[max];
            && victim in t.table && victim != last && victim !in Evict(t, max).table && last in Evict(t, max).table
            && Evict(t, max) == Drop(t, victim)
            && forall x :: x in t.order && x != victim ==> LastUse(ops, victim) < LastUse(ops, x)
  {
    var victim, last := t.order[0], t.order[max];
    assert victim in t.table && last in t.table;
    DropKeepsInv(t, held, victim);
    assert Evict(Drop(t, victim), max) == Drop(t, victim);
    forall x | x in t.order && x != victim ensures LastUse(ops, victim) < LastUse(ops, x) {
      var i :| 0 <= i < |t.order| && t.order[i] == x;
    }
  }
}
