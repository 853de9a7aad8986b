/** The path-keyed cache of open dump readers: bounded, least recently acquired out first, with
    the close of a reader in use left to its last holder (app/reader_cache.py). Each method is
    one step under the cache's lock. */
module ReaderCache {
  import opened Sequences
  import opened CacheModel
  import opened CacheEffects

  class Reader {
    var isOpen: bool
    ghost var closes: int
    /** The one entry that refers to this reader. */
    ghost var owner: CacheEntry?

    constructor ()
      ensures isOpen && closes == 0
    {
      isOpen, closes := true, 0;
    }

    method Close()
      modifies this`isOpen, this`closes
      ensures !isOpen && closes == old(closes) + 1
    {
      isOpen, closes := false, closes + 1;
    }
  }

  class CacheEntry {
    const reader: Reader
    var refcount: int
    var evicted: bool

    constructor (reader: Reader)
      ensures this.reader == reader && refcount == 0 && !evicted
    {
      this.reader := reader;
      refcount, evicted := 0, false;
    }
  }

  /** The fields of the entries, all of whose objects are in `repr`, are what `m` says. */
  ghost predicate Mirrors(m: State<CacheEntry>, repr: set<object>)
    reads repr
  {
    && m.refs.Keys == m.closes.Keys && m.evicted <= m.refs.Keys
    && (forall e :: e in m.refs ==> e in repr && e.reader in repr && MirrorsEntry(m, e))
  }

  ghost predicate MirrorsEntry(m: State<CacheEntry>, e: CacheEntry)
    requires e in m.refs && e in m.closes
    reads e, e.reader
  {
    && e.reader.owner == e && e.refcount == m.refs[e] && (e.evicted <==> e in m.evicted)
    && e.reader.closes == m.closes[e] && (e.reader.isOpen <==> m.closes[e] == 0)
  }

  /** An entry that is not cached: marked, its reader open, while someone holds it; closed once after. */
  ghost predicate Dismissed(e: CacheEntry)
    reads e, e.reader
  {
    if e.refcount > 0 then e.evicted && e.reader.isOpen else !e.reader.isOpen && e.reader.closes == 1
  }

  lemma {:induction false} NotCachedIsDismissed(m: State<CacheEntry>, repr: set<object>, held: multiset<CacheEntry>,
                                                e: CacheEntry)
    requires Mirrors(m, repr) && Inv(m, held) && e in m.refs && !Cached(m, e)
    ensures Dismissed(e) && e.refcount == held[e]
  {
    assert MirrorsEntry(m, e) && EntryOk(m, e);
  }

  /** Whatever they say of order and table, `m` and `n` say the same of the entries. */
  ghost predicate SameEntries(m: State<CacheEntry>, n: State<CacheEntry>) {
    n.refs == m.refs && n.evicted == m.evicted && n.closes == m.closes
  }

  /** One more entry, with a reader of its own, held once. */
  lemma {:induction false} OneMoreMirror(m: State<CacheEntry>, n: State<CacheEntry>, repr: set<object>, e: CacheEntry)
    requires Mirrors(m, repr) && e !in m.refs && e.reader.owner == e
    requires e.refcount == 1 && !e.evicted && e.reader.closes == 0 && e.reader.isOpen
    requires n.refs == m.refs[e := 1] && n.evicted == m.evicted && n.closes == m.closes[e := 0]
    ensures Mirrors(n, repr + {e, e.reader})
  {
    forall f | f in n.refs ensures MirrorsEntry(n, f) {
      if f != e { assert MirrorsEntry(m, f); }
    }
  }

  class MslReaderCache {
    const maxSize: nat
    /** The ordered dictionary: its keys in order, and the entry of each. */
    var order: seq<Key>
    var table: map<Key, CacheEntry>

    /** The cache's history in brief: every entry ever made, its holders and its closes. */
    ghost var model: State<CacheEntry>
    /** The references handed out and not yet released. */
    ghost var held: multiset<CacheEntry>
    ghost var repr: set<object>

    /** The fields agree with the model, apart from the capacity. */
    ghost predicate Agrees()
      reads this, repr
    {
      this !in repr && Mirrors(model, repr) && Known(model) && order == model.order && table == model.table
    }

    lemma {:induction false} AgreesOn(m: State<CacheEntry>)
      requires this !in repr && Mirrors(m, repr) && Known(m) && model == m && order == m.order && table == m.table
      ensures Agrees()
    {
    }

    ghost predicate Valid()
      reads this, repr
    {
      maxSize >= 1 && Agrees() && |order| <= maxSize && Inv(model, held)
    }

    /** No reader is closed while someone holds it. */
    ghost predicate HeldAreOpen()
      reads this, repr
    {
      forall e :: e in held ==> e in repr && e.reader in repr && e.reader.isOpen && e.refcount == held[e]
    }

    lemma {:induction false} ValidHoldsOpen()
      requires Valid()
      ensures HeldAreOpen()
    {
      forall e | e in held ensures e in repr && e.reader in repr && e.reader.isOpen && e.refcount == held[e] {
        assert e in model.refs && EntryOk(model, e) && MirrorsEntry(model, e);
      }
    }

    constructor (maxSize: nat)
      requires maxSize >= 1
      ensures Valid() && fresh(repr) && model == Empty() && held == multiset{} && this.maxSize == maxSize
    {
      this.maxSize := maxSize;
      order, table, model, held, repr := [], map[], Empty(), multiset{}, {};
    }

    /** A dropped entry: closed when idle, else marked for its last holder. */
    method DropEntry(e: CacheEntry, k: Key)
      requires this !in repr && Mirrors(model, repr) && k in model.table && model.table[k] == e && e in model.refs
      modifies this`model, e`evicted, e.reader
      ensures model == Drop(old(model), k) && Mirrors(model, repr)
    {
      assert MirrorsEntry(model, e);
      if e.refcount > 0 {
        e.evicted := true;
      } else {
        e.reader.Close();
      }
      model := Drop(model, k);
      forall f | f in model.refs ensures MirrorsEntry(model, f) {
        assert old(MirrorsEntry(model, f));
      }
    }

    /** Takes the entry of `key` out of the cache. */
    method Remove(key: Key)
      requires Agrees() && key in table
      modifies this`order, this`table, this`model, repr
      ensures Agrees() && model == Drop(old(model), key)
    {
      var entry := table[key];
      DropKnown(model, key);
      order := Without(order, key);
      table := Removed(table, key);
      DropEntry(entry, key);
    }

    /** Evicts the oldest entries until the capacity is met. */
    method EvictOverCapacity()
      requires Agrees()
      modifies this`order, this`table, this`model, repr
      ensures model == Evict(old(model), maxSize) && Agrees() && |order| <= maxSize
    {
      while |order| > maxSize
        invariant Agrees() && Evict(model, maxSize) == Evict(old(model), maxSize)
        decreases |order|
      {
        EvictOne(model, maxSize);
        Remove(order[0]);
      }
    }

    /** The entry for `path`, made by opening its dump when it is not cached; `fails` says whether
        that open raises, which leaves the cache as it was. */
    method Acquire(path: Key, fails: bool) returns (entry: CacheEntry?)
      requires Valid()
      modifies this`order, this`table, this`model, this`held, this`repr, repr
      ensures Valid() && HeldAreOpen() && fresh(repr - old(repr)) && old(repr) <= repr
      ensures entry == null <==> fails && path !in old(table)
      ensures entry == null ==> model == old(model) && held == old(held)
      ensures entry != null ==>
        && held == old(held) + multiset{entry}
        && (if path in old(table) then entry == old(table)[path] else entry !in old(model).refs)
        && model == Acquired(old(model), maxSize, path, entry)
        && MovedLast(old(order), order, path, maxSize) && TableWith(old(table), table, path, entry)
    {
      ghost var before, was := model, held;
      entry := AcquireLocked(path, fails);
      if entry != null {
        AcquiredKeepsInv(before, was, maxSize, path, entry);
        AcquiredDoes(before, maxSize, path, entry);
      }
      ValidHoldsOpen();
    }

    /** What an acquire does under the lock. */
    method AcquireLocked(path: Key, fails: bool) returns (entry: CacheEntry?)
      requires Agrees() && |order| <= maxSize
      modifies this`order, this`table, this`model, this`held, this`repr, repr
      ensures Agrees() && |order| <= maxSize && fresh(repr - old(repr)) && old(repr) <= repr
      ensures entry == null <==> fails && path !in old(table)
      ensures entry == null ==> model == old(model) && held == old(held)
      ensures entry != null ==>
        && held == old(held) + multiset{entry}
        && (if path in old(table) then entry == old(table)[path] else entry !in old(model).refs)
        && model == Acquired(old(model), maxSize, path, entry)
    {
      entry := Fetch(path, fails);
      if entry != null {
        HandOut(held + multiset{entry});
      }
    }

    /** The entry, cached or opened, as the most recent one; then the cache is trimmed. */
    method Fetch(path: Key, fails: bool) returns (entry: CacheEntry?)
      requires Agrees() && |order| <= maxSize
      modifies this`order, this`table, this`model, this`repr, repr
      ensures Agrees() && |order| <= maxSize && fresh(repr - old(repr)) && old(repr) <= repr
      ensures entry == null <==> fails && path !in old(table)
      ensures entry == null ==> model == old(model)
      ensures entry != null ==>
        && (if path in old(table) then entry == old(table)[path] else entry !in old(model).refs)
        && model == Acquired(old(model), maxSize, path, entry)
    {
      if path !in table {
        if fails {
          return null;
        }
        entry := OpenEntry(path);
      } else {
        entry := Touch(path);
      }
      EvictFits(model, maxSize);
      EvictOverCapacity();
    }

    /** A cached entry becomes the most recent one and gains a holder. */
    method Touch(path: Key) returns (entry: CacheEntry)
      requires Agrees() && path in table
      modifies this`order, this`model, repr
      ensures Agrees() && entry == table[path] && model == Held(old(model), path, entry)
    {
      entry := table[path];
      ghost var next := Held(model, path, entry);
      HeldAgain(model, path, entry);
      order := Without(order, path) + [path];
      AddHolder(entry, 1, next);
      AgreesOn(next);
    }

    /** Changes an entry's count, and the model's with it. */
    method AddHolder(entry: CacheEntry, change: int, ghost next: State<CacheEntry>)
      requires this !in repr && Mirrors(model, repr) && entry in model.refs
      requires SameEntries(next, Counted(model, entry, change))
      modifies this`model, entry`refcount
      ensures model == next && Mirrors(model, repr) && entry.refcount == model.refs[entry]
    {
      assert MirrorsEntry(model, entry);
      entry.refcount := entry.refcount + change;
      model := next;
      forall f | f in model.refs ensures MirrorsEntry(model, f) {
        assert old(MirrorsEntry(model, f));
      }
    }

    /** Opens a dump that is not cached: a new entry, held once. */
    method OpenEntry(path: Key) returns (entry: CacheEntry)
      requires Agrees() && path !in table
      modifies this`order, this`table, this`model, this`repr
      ensures Agrees() && fresh(repr - old(repr)) && old(repr) <= repr && entry !in old(model).refs
      ensures model == Held(old(model), path, entry)
    {
      entry := NewEntry();
      Insert(path, entry);
    }

    /** Files a new entry under its key. */
    method Insert(path: Key, entry: CacheEntry)
      requires Agrees() && path !in table && entry !in model.refs && entry.reader.owner == entry
      requires entry.refcount == 1 && !entry.evicted && entry.reader.closes == 0 && entry.reader.isOpen
      modifies this`order, this`table, this`model, this`repr
      ensures Agrees() && repr == old(repr) + {entry, entry.reader} && model == Held(old(model), path, entry)
    {
      ghost var next := Held(model, path, entry);
      HeldFirst(model, path, entry);
      OneMoreMirror(model, next, repr, entry);
      repr := repr + {entry, entry.reader};
      table := table[path := entry];
      order := order + [path];
      model := next;
      AgreesOn(next);
    }

    /** A holder lets go; the last one closes the reader of a dropped entry. */
    method Release(entry: CacheEntry)
      requires Valid() && entry in model.refs && model.refs[entry] > 0
      modifies this`model, this`held, entry`refcount, entry.reader
      ensures Valid() && HeldAreOpen()
      ensures model == Released(old(model), entry) && held == old(held) - multiset{entry}
      ensures entry.refcount == held[entry] && (Cached(model, entry) || Dismissed(entry))
    {
      HolderLeaves(entry);
      LetGo(entry);
      StillMirrored(entry);
      ValidHoldsOpen();
    }

    lemma {:induction false} StillMirrored(entry: CacheEntry)
      requires Valid() && entry in model.refs
      ensures entry.refcount == held[entry] && (Cached(model, entry) || Dismissed(entry))
    {
      assert MirrorsEntry(model, entry);
      if !Cached(model, entry) { NotCachedIsDismissed(model, repr, held, entry); }
    }

    /** The references out become `now`; nothing else changes. */
    ghost method HandOut(now: multiset<CacheEntry>)
      requires Agrees()
      modifies this`held
      ensures Agrees() && held == now
    {
      held := now;
      AgreesOn(model);
    }

    lemma {:induction false} HolderLeaves(entry: CacheEntry)
      requires Valid() && entry in model.refs && model.refs[entry] > 0
      ensures entry in held && Inv(Released(model, entry), held - multiset{entry})
      ensures |Released(model, entry).order| <= maxSize
    {
      ReleasedKeepsInv(model, held, entry);
    }

    /** What a release does under the lock. */
    method LetGo(entry: CacheEntry)
      requires Agrees() && entry in model.refs
      modifies this`model, this`held, entry`refcount, entry.reader
      ensures Agrees() && model == Released(old(model), entry) && held == old(held) - multiset{entry}
    {
      HandOut(held - multiset{entry});
      DropHolder(entry);
    }

    method DropHolder(entry: CacheEntry)
      requires Agrees() && entry in model.refs
      modifies this`model, entry`refcount, entry.reader
      ensures Agrees() && model == Released(old(model), entry)
    {
      AddHolder(entry, -1, Counted(model, entry, -1));
      assert MirrorsEntry(model, entry);
      if entry.refcount <= 0 && entry.evicted {
        CloseReader(entry);
      }
    }

    /** Closes an entry's reader, and counts the close. */
    method CloseReader(entry: CacheEntry)
      requires this !in repr && Mirrors(model, repr) && entry in model.refs
      modifies this`model, entry.reader
      ensures model == Closed(old(model), entry)
      ensures Mirrors(model, repr)
    {
      assert MirrorsEntry(model, entry);
      entry.reader.Close();
      model := Closed(model, entry);
      forall f | f in model.refs ensures MirrorsEntry(model, f) {
        assert old(MirrorsEntry(model, f));
      }
    }

    /** Drops the entry of `path`; false when there is none. */
    method Invalidate(path: Key) returns (existed: bool)
      requires Valid()
      modifies this`order, this`table, this`model, repr
      ensures Valid() && HeldAreOpen()
      ensures model == Invalidated(old(model), path) && existed == (path in old(table))
      ensures path !in table && path !in order
      ensures TakenOut(old(order), order, path) && TableLess(old(table), table, path)
      ensures existed ==> Dismissed(old(table)[path]) && old(table)[path].refcount == held[old(table)[path]]
    {
      StepKeepsInv(Config(model, held), maxSize, Op.Invalidate(path));
      InvalidatedDoes(model, path);
      if path !in table {
        ValidHoldsOpen();
        return false;
      }
      ghost var entry := table[path];
      LeavesCache(model, path);
      Remove(path);
      NotCachedIsDismissed(model, repr, held, entry);
      ValidHoldsOpen();
      return true;
    }

    /** Closes every idle reader and clears the cache; readers in use are left to their holders. */
    method Shutdown()
      requires Valid()
      modifies this`order, this`table, this`model, repr
      ensures Valid() && HeldAreOpen() && model == Evict(old(model), 0) && order == [] && table == map[]
      ensures model.refs == old(model.refs) && forall e :: e in model.refs ==> Dismissed(e)
    {
      EvictKeepsInv(model, held, 0);
      EvictFits(model, 0);
      DropAll();
      forall e | e in model.refs ensures Dismissed(e) { NotCachedIsDismissed(model, repr, held, e); }
      ValidHoldsOpen();
    }

    /** What a shutdown does under the lock. */
    method DropAll()
      requires Agrees()
      modifies this`order, this`table, this`model, repr
      ensures Agrees() && model == Evict(old(model), 0) && order == [] && table == map[]
    {
      var keys, entries := order, table;
      AllLeft(model);
      for k := 0 to |keys|
        invariant this !in repr && Mirrors(model, repr) && Left(model, keys, k, entries)
                  && Evict(model, 0) == Evict(old(model), 0)
      {
        DropNext(keys, k, entries);
      }
      NoneLeft(model, keys, entries);
      Clear();
    }

    method DropNext(keys: seq<Key>, k: nat, entries: map<Key, CacheEntry>)
      requires this !in repr && Mirrors(model, repr) && k < |keys| && Left(model, keys, k, entries)
      modifies this`model, repr
      ensures Mirrors(model, repr) && Left(model, keys, k + 1, entries) && Evict(model, 0) == Evict(old(model), 0)
    {
      NextKey(model, keys, k, entries);
      DropEntry(entries[keys[k]], keys[k]);
    }

    method Clear()
      requires this !in repr && Mirrors(model, repr) && Known(model) && model.order == []
      modifies this`order, this`table
      ensures Agrees() && order == [] && table == map[]
    {
      order, table := [], map[];
      assert model.table == map[];
    }
  }

  /** An opened reader with its entry, held once. */
  method NewEntry() returns (entry: CacheEntry)
    ensures fresh(entry) && fresh(entry.reader) && entry.reader.owner == entry && entry.refcount == 1 && !entry.evicted
    ensures entry.reader.closes == 0 && entry.reader.isOpen
  {
    var reader := new Reader();
    entry := new CacheEntry(reader);
    reader.owner := entry;
    entry.refcount := entry.refcount + 1;
  }

  /** An entry leaves the cache with the one key it has. */
  lemma {:induction false} LeavesCache(m: State<CacheEntry>, k: Key)
    requires Known(m) && k in m.table
    requires forall j, l :: j in m.table && l in m.table && m.table[j] == m.table[l] ==> j == l
    ensures !Cached(Drop(m, k), m.table[k]) && m.table[k] in Drop(m, k).refs
  {
  }

  /** A shutdown has come to key `k` of the keys it started with. */
  ghost predicate Left<E>(m: State<E>, keys: seq<Key>, k: nat, entries: map<Key, E>) {
    && Known(m) && k <= |keys| && m.order == keys[k..]
    && forall x :: x in m.table ==> x in entries && m.table[x] == entries[x]
  }

  lemma {:induction false} AllLeft<E>(m: State<E>)
    requires Known(m)
    ensures Left(m, m.order, 0, m.table)
  {
  }

  lemma {:induction false} NoneLeft<E>(m: State<E>, keys: seq<Key>, entries: map<Key, E>)
    requires Left(m, keys, |keys|, entries)
    ensures Known(m) && m.order == [] && Evict(m, 0) == m
  {
  }

  /** Dropping the first of the keys left leaves the keys after it. */
  lemma {:induction false} NextKey<E>(m: State<E>, keys: seq<Key>, k: nat, entries: map<Key, E>)
    requires k < |keys| && Left(m, keys, k, entries)
    ensures keys[k] in m.table && m.table[keys[k]] in m.refs && m.table[keys[k]] in m.closes
    ensures keys[k] in entries && entries[keys[k]] == m.table[keys[k]]
    ensures Left(Drop(m, keys[k]), keys, k + 1, entries)
    ensures Evict(m, 0) == Evict(Drop(m, keys[k]), 0)
  {
    EvictOne(m, 0);
    WithoutFirst(m.order);
  }
}
