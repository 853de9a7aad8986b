/** What the steps of the reader cache do to its keys, its table and its entries, key by key, and
    that an invalidated key never brings back an old reader (app/reader_cache.py). */
module CacheEffects {
  import opened Sequences
  import opened CacheModel

  // ---- keys and table ---------------------------------------------------------------------------------

  /** `after` is `before` with `k` taken out, if it is there: the other keys keep their order. */
  ghost predicate TakenOut(before: seq<Key>, after: seq<Key>, k: Key) {
    && (k !in before ==> after == before)
    && (k in before ==> exists i :: 0 <= i < |before| && before[i] == k && after == before[..i] + before[i + 1..])
  }

  /** `after` is `before` without `k`: every other key keeps its entry. */
  ghost predicate TableLess<E>(before: map<Key, E>, after: map<Key, E>, k: Key) {
    after.Keys == before.Keys - {k} && forall x :: x in after ==> after[x] == before[x]
  }

  /** `k` has entry `e`, and every other key that is left has the entry it had. */
  ghost predicate TableWith<E>(before: map<Key, E>, after: map<Key, E>, k: Key, e: E) {
    && k in after && after[k] == e
    && forall x :: x in after && x != k ==> x in before && after[x] == before[x]
  }

  /** `k` moves behind the other keys; the first key goes when there are more than `max`. */
  ghost predicate MovedLast(before: seq<Key>, after: seq<Key>, k: Key, max: nat)
    requires max >= 1
  {
    exists rest :: TakenOut(before, rest, k) && after == (if |rest| < max then rest else rest[1..]) + [k]
  }

  lemma {:induction false} WithoutNone(order: seq<Key>, k: Key)
    requires k !in order
    ensures Without(order, k) == order
  {
    if order != [] {
      WithoutNone(order[..|order| - 1], k);
      SplitLast(order);
    }
  }

  lemma {:induction false} WithoutIsTakenOut(order: seq<Key>, k: Key)
    requires Distinct(order)
    ensures TakenOut(order, Without(order, k), k)
  {
    if k !in order {
      WithoutNone(order, k);
    } else {
      var n := |order| - 1;
      var i := WithoutAt(order, k);
      assert order[i] == k && Without(order, k) == order[..i] + order[i + 1..];
    }
  }

  lemma {:induction false} WithoutAt(order: seq<Key>, k: Key) returns (i: nat)
    requires Distinct(order) && k in order
    ensures i < |order| && order[i] == k && Without(order, k) == order[..i] + order[i + 1..]
  {
    var n := |order| - 1;
    if order[n] == k {
      i := n;
      WithoutNone(order[..n], k);
      AppendNothing(order[..n]);
    } else {
      i := WithoutAt(order[..n], k);
      assert order[..n][..i] == order[..i] && order[..n][i + 1..] + [order[n]] == order[i + 1..];
      Associative(order[..i], order[..n][i + 1..], [order[n]]);
    }
  }

  // ---- dropping an entry --------------------------------------------------------------------------------

  /** An entry has left the cache: its reader is closed if nobody held it, else the entry is marked
      for its last holder. Nothing else about any entry changes. */
  ghost predicate Dismisses<E>(s: State<E>, t: State<E>, e: E)
    requires e in s.refs && e in s.closes
  {
    && t.refs == s.refs
    && (s.refs[e] > 0 ==> t.closes == s.closes && t.evicted == s.evicted + {e})
    && (s.refs[e] <= 0 ==> t.closes == s.closes[e := s.closes[e] + 1] && t.evicted == s.evicted)
  }

  lemma {:induction false} DropDoes<E>(s: State<E>, k: Key)
    requires Known(s) && k in s.table
    ensures var t := Drop(s, k);
            && TakenOut(s.order, t.order, k) && k !in t.order && TableLess(s.table, t.table, k)
            && Dismisses(s, t, s.table[k])
  {
    WithoutIsTakenOut(s.order, k);
  }

  /** Invalidating takes the key out, whatever is cached, and dismisses its entry. */
  lemma {:induction false} InvalidatedDoes<E>(s: State<E>, k: Key)
    requires Known(s)
    ensures var t := Invalidated(s, k);
            && TakenOut(s.order, t.order, k) && k !in t.order && TableLess(s.table, t.table, k)
            && (if k in s.table then Dismisses(s, t, s.table[k])
                else t.refs == s.refs && t.closes == s.closes && t.evicted == s.evicted)
  {
    if k in s.table { DropDoes(s, k); }
  }

  // ---- acquiring ------------------------------------------------------------------------------------------

  lemma {:induction false} HeldDoes<E>(s: State<E>, k: Key, e: E)
    requires Known(s) && (k in s.table ==> e == s.table[k])
    ensures var t := Held(s, k, e);
            && (exists rest :: TakenOut(s.order, rest, k) && k !in rest && |rest| <= |s.order| && t.order == rest + [k])
            && TableWith(s.table, t.table, k, e)
  {
    WithoutIsTakenOut(s.order, k);
    WithoutNoneOrNot(s.order, k);
    assert Held(s, k, e).order == Without(s.order, k) + [k];
  }

  lemma {:induction false} WithoutNoneOrNot(order: seq<Key>, k: Key)
    ensures k !in order ==> Without(order, k) == order
  {
    if k !in order { WithoutNone(order, k); }
  }

  /** Acquiring a key makes it the most recent one, with its entry; when that overfills the cache,
      the least recent key goes. */
  lemma {:induction false} AcquiredDoes<E>(s: State<E>, max: nat, k: Key, e: E)
    requires Known(s) && |s.order| <= max && max >= 1 && (k in s.table ==> e == s.table[k])
    ensures var t := Acquired(s, max, k, e);
            MovedLast(s.order, t.order, k, max) && TableWith(s.table, t.table, k, e)
  {
    HeldDoes(s, k, e);
    var rest :| TakenOut(s.order, rest, k) && k !in rest && |rest| <= |s.order| && Held(s, k, e).order == rest + [k];
    Trimmed(Held(s, k, e), s.table, max, k, e, rest);
  }

  lemma {:induction false} Trimmed<E>(h: State<E>, before: map<Key, E>, max: nat, k: Key, e: E, rest: seq<Key>)
    requires Known(h) && max >= 1 && h.order == rest + [k] && |rest| <= max && TableWith(before, h.table, k, e)
    ensures Evict(h, max).order == (if |rest| < max then rest else rest[1..]) + [k]
    ensures TableWith(before, Evict(h, max).table, k, e)
  {
    if |rest| == max {
      EvictsOne(h, max);
      DropDoes(h, h.order[0]);
      FirstGone(h.order, Drop(h, h.order[0]).order, rest, k);
      OneLessInTable(before, h.table, Drop(h, h.order[0]).table, h.order[0], k, e);
    }
  }

  lemma {:induction false} EvictsOne<E>(h: State<E>, max: nat)
    requires Known(h) && |h.order| == max + 1
    ensures h.order[0] in h.table && Evict(h, max) == Drop(h, h.order[0])
  {
    EvictOne(h, max);
  }

  lemma {:induction false} FirstGone(before: seq<Key>, after: seq<Key>, rest: seq<Key>, k: Key)
    requires Distinct(before) && before == rest + [k] && rest != [] && TakenOut(before, after, before[0])
    ensures after == rest[1..] + [k] && before[0] != k
  {
    FirstOut(before, after);
    assert (rest + [k])[1..] == rest[1..] + [k];
    assert before[0] != before[|rest|];
  }

  lemma {:induction false} OneLessInTable<E>(before: map<Key, E>, mid: map<Key, E>, after: map<Key, E>, gone: Key,
                                             k: Key, e: E)
    requires TableWith(before, mid, k, e) && TableLess(mid, after, gone) && gone != k
    ensures TableWith(before, after, k, e)
  {
  }

  lemma {:induction false} FirstOut(before: seq<Key>, after: seq<Key>)
    requires Distinct(before) && before != [] && TakenOut(before, after, before[0])
    ensures after == before[1..]
  {
    var i :| 0 <= i < |before| && before[i] == before[0] && after == before[..i] + before[i + 1..];
    assert i == 0;
  }

  // ---- after an invalidation --------------------------------------------------------------------------------

  /** No step of the run acquires the key. */
  ghost predicate NeverAcquires<E>(ops: seq<Op<E>>, k: Key) {
    forall i :: 0 <= i < |ops| ==> !(ops[i].Acquire? && ops[i].key == k)
  }

  /** A step that does not acquire a key does not bring it into the cache, and forgets no entry. */
  lemma {:induction false} StepKeepsOut<E>(c: Config<E>, max: nat, op: Op<E>, k: Key)
    requires Inv(c.s, c.held) && |c.s.order| <= max && Legal(c, op) && !(op.Acquire? && op.key == k)
    requires k !in c.s.table
    ensures k !in Step(c, max, op).s.table && c.s.refs.Keys <= Step(c, max, op).s.refs.Keys
  {
    match op
    case Acquire(l, e) =>
      EvictFits(Held(c.s, l, e), max);
      EvictKeepsOut(Held(c.s, l, e), max, k);
    case OpenFails(_) =>
    case Release(e) =>
    case Invalidate(l) => InvalidatedDoes(c.s, l);
    case Shutdown =>
      EvictFits(c.s, 0);
      EvictKeepsOut(c.s, 0, k);
  }

  lemma {:induction false} EvictKeepsOut<E>(s: State<E>, max: nat, k: Key)
    requires Known(s) && k !in s.table
    ensures k !in Evict(s, max).table
    decreases |s.order|
  {
    if |s.order| > max {
      EvictOne(s, max);
      EvictKeepsOut(Drop(s, s.order[0]), max, k);
    }
  }

  /** The run up to here is legal, has left `k` out of the cache and still knows the entries `known`. */
  ghost predicate Out<E>(max: nat, ops: seq<Op<E>>, k: Key, known: set<E>) {
    After(max, ops).Some? ==> k !in After(max, ops).value.s.table && known <= After(max, ops).value.s.refs.Keys
  }

  lemma {:induction false} AfterNext<E>(max: nat, ops: seq<Op<E>>, op: Op<E>)
    ensures After(max, ops + [op]).Some? ==>
              && After(max, ops).Some? && Legal(After(max, ops).value, op)
              && After(max, ops + [op]).value == Step(After(max, ops).value, max, op)
  {
    PrefixOf(ops, [op]);
  }

  lemma {:induction false} StaysOut<E>(max: nat, ops: seq<Op<E>>, more: seq<Op<E>>, k: Key, known: set<E>)
    requires Out(max, ops, k, known) && NeverAcquires(more, k)
    ensures Out(max, ops + more, k, known)
  {
    if more == [] {
      AppendNothing(ops);
    } else {
      var n := |more| - 1;
      StaysOut(max, ops, more[..n], k, known);
      SplitLast(more);
      Associative(ops, more[..n], [more[n]]);
      AfterNext(max, ops + more[..n], more[n]);
      if After(max, ops + more).Some? {
        StepKeepsOut(After(max, ops + more[..n]).value, max, more[n], k);
      }
    }
  }

  /** In every run, the first acquire of a key after its invalidation makes a new entry, so opens its
      dump anew: one that no earlier step of the run has handed out or cached. */
  lemma {:induction false} InvalidatedIsReopened<E>(max: nat, ops: seq<Op<E>>, k: Key, more: seq<Op<E>>, e: E)
    requires After(max, ((ops + [Invalidate(k)]) + more) + [Acquire(k, e)]).Some? && NeverAcquires(more, k)
    ensures After(max, ops).Some? && e !in After(max, ops).value.s.refs
    ensures e !in After(max, (ops + [Invalidate(k)]) + more).value.s.refs
  {
    var invalidated := ops + [Op.Invalidate(k)];
    AfterNext(max, invalidated + more, Acquire(k, e));
    AfterPrefix(max, invalidated, more);
    AfterNext(max, ops, Op.Invalidate(k));
    InvalidatedDoes(After(max, ops).value.s, k);
    StaysOut(max, invalidated, more, k, After(max, ops).value.s.refs.Keys);
  }

  lemma {:induction false} AfterPrefix<E>(max: nat, ops: seq<Op<E>>, more: seq<Op<E>>)
    requires After(max, ops + more).Some?
    ensures After(max, ops).Some?
  {
    if more == [] {
      AppendNothing(ops);
    } else {
      var n := |more| - 1;
      SplitLast(more);
      Associative(ops, more[..n], [more[n]]);
      AfterNext(max, ops + more[..n], more[n]);
      AfterPrefix(max, ops, more[..n]);
    }
  }
}
