/**
 * The simple thing the TLRFU cache speeds up: a map of items and a log of accesses. The victim of
 * an eviction is the item with the fewest accesses since its insertion and, among those, the one
 * accessed longest ago. Frequencies, LRU keys and buckets do not occur here.
 */
module CacheReference {
  import opened Prelude
  import opened CacheModel
  import opened CacheInvariant

  datatype Access = Inserted(key: Key) | Hit(key: Key)

  datatype Item = Item(value: Bytes, deadline: nat)

  datatype Simple = Simple(items: map<Key, Item>, log: seq<Access>)

  /** One plus the number of hits on `k` since it was last inserted. */
  ghost function Uses(log: seq<Access>, k: Key): nat {
    if log == [] then 0 else
    var (before, a) := (log[..|log| - 1], log[|log| - 1]);
    if a.key != k then Uses(before, k) else if a.Inserted? then 1 else 1 + Uses(before, k)
  }

  /** The time of the last access to `k`: its position in the log. */
  ghost function LastUse(log: seq<Access>, k: Key): (t: int)
    ensures t < |log|
  {
    if log == [] then -1 else
    if log[|log| - 1].key == k then |log| - 1 else LastUse(log[..|log| - 1], k)
  }

  /** The victim order: least frequently used first, then least recently used. */
  ghost predicate Before(log: seq<Access>, j: Key, k: Key) {
    Uses(log, j) < Uses(log, k) || (Uses(log, j) == Uses(log, k) && LastUse(log, j) < LastUse(log, k))
  }

  ghost function Size(items: map<Key, Item>): nat {
    Sum(items.Keys, k => if k in items then |items[k].value| else 0)
  }

  ghost function AsSet(victims: seq<Key>): set<Key> {
    set k | k in victims
  }

  /** `victims` is the shortest prefix of the victim order whose removal makes room for `len` more
      bytes, or all items when nothing makes room. */
  ghost predicate ShortestPrefix(s: Simple, len: nat, maxSize: nat, victims: seq<Key>) {
    && AsSet(victims) <= s.items.Keys
    && (forall i, j :: 0 <= i < j < |victims| ==> Before(s.log, victims[i], victims[j]))
    && (forall v, k :: v in victims && k in s.items && k !in victims ==> Before(s.log, v, k))
    && (forall n :: 0 <= n < |victims| ==> Size(s.items - AsSet(victims[..n])) + len > maxSize)
    && (Size(s.items - AsSet(victims)) + len <= maxSize || AsSet(victims) == s.items.Keys)
  }

  /** The cache holds the simple cache's items; frequency counts uses, and LRU keys order equally
      frequent entries by their last use. */
  ghost predicate Refines(c: Cache, s: Simple) {
    && c.store.Keys == s.items.Keys
    && (forall k :: k in c.store ==>
          s.items[k] == Item(c.store[k].value, c.store[k].ttl) && c.store[k].freq == Uses(s.log, k))
    && (forall j, k :: j in c.store && k in c.store
                       && c.store[j].freq == c.store[k].freq && c.store[j].lruK < c.store[k].lruK
          ==> LastUse(s.log, j) < LastUse(s.log, k))
  }

  lemma LogGrows(log: seq<Access>, a: Access, k: Key)
    ensures LastUse(log + [a], k) == if a.key == k then |log| else LastUse(log, k)
    ensures Uses(log + [a], k) == if a.key != k then Uses(log, k) else if a.Inserted? then 1 else 1 + Uses(log, k)
  {
    assert (log + [a])[..|log|] == log;
  }

  lemma SizeAgrees(c: Cache, s: Simple)
    requires Refines(c, s)
    ensures c.store.Keys == s.items.Keys && Size(s.items) == TotalSize(c.store)
  {
    SumCongruent(s.items.Keys, k => if k in s.items then |s.items[k].value| else 0,
                 k => if k in c.store then |c.store[k].value| else 0);
  }

  lemma RefinesRemoval(c: Cache, s: Simple, c': Cache, gone: set<Key>)
    requires Refines(c, s) && c'.store == c.store - gone
    ensures Refines(c', s.(items := s.items - gone))
  {
  }

  // ----- eviction

  lemma HeadIsOldest(store: map<Key, Entry>, freq: map<nat, Bucket>, f: nat, k: Key)
    requires BucketsAgree(store, freq) && f in freq && freq[f] != [] && freq[f][0].1 in store && k in store
    ensures store[k].freq == f && k != freq[f][0].1 ==> store[freq[f][0].1].lruK < store[k].lruK
  {
    var b := freq[f];
    assert b[0] in b;
    if store[k].freq == f {
      var i :| 0 <= i < |b| && b[i] == (store[k].lruK, k);
    }
  }

  /** The entry the cache evicts comes before every other in the victim order. */
  lemma EvictsLeast(c: Cache, s: Simple, k: Key)
    requires Core(c) && Refines(c, s) && c.freq.Keys != {} && k in c.store
    ensures c.freq[Least(c.freq.Keys)] != []
    ensures var v := c.freq[Least(c.freq.Keys)][0].1; v in c.store && (k != v ==> Before(s.log, v, k))
  {
    hide BucketsAgree, DeadlinesAgree, TotalSize;
    var f := Least(c.freq.Keys);
    HeadSlot(c.store, c.freq, f);
    SlotFound(c.store, c.freq, k);
    HeadIsOldest(c.store, c.freq, f, k);
  }

  /** Eviction removes exactly the shortest prefix of the victim order that makes room. */
  lemma {:induction false} EvictsShortestPrefix(c: Cache, s: Simple, len: nat) returns (victims: seq<Key>)
    requires Core(c) && Refines(c, s)
    ensures ShortestPrefix(s, len, c.maxSize, victims)
    ensures Evict(c, len).0.store == c.store - AsSet(victims)
    decreases |c.store|
  {
    hide BucketsAgree, DeadlinesAgree, TotalSize, Refines, ShortestPrefix, Size, Shrunk, Evict, EvictOne;
    SizeAgrees(c, s);
    EvictSteps(c, len);
    if c.used + len <= c.maxSize || c.store == map[] {
      victims := [];
      NothingEvicted(s, len, c.maxSize);
      assert c.store - AsSet([]) == c.store;
    } else {
      var v := c.freq[Least(c.freq.Keys)][0].1;
      RemovedKeepsCore(c, v);
      var c1, s1 := Removed(c, v), s.(items := s.items - {v});
      RefinesRemoval(c, s, c1, {v});
      var rest := EvictsShortestPrefix(c1, s1, len);
      victims := [v] + rest;
      forall k | k in c.store && k != v ensures Before(s.log, v, k) { EvictsLeast(c, s, k); }
      PrefixExtends(s, len, c.maxSize, v, rest);
      assert c.store - AsSet(victims) == c1.store - AsSet(rest);
    }
  }

  lemma NothingEvicted(s: Simple, len: nat, maxSize: nat)
    requires Size(s.items) + len <= maxSize || s.items == map[]
    ensures ShortestPrefix(s, len, maxSize, [])
  {
    hide Size;
    assert s.items - AsSet([]) == s.items;
  }

  lemma PrefixExtends(s: Simple, len: nat, maxSize: nat, v: Key, rest: seq<Key>)
    requires v in s.items && Size(s.items) + len > maxSize
    requires forall k :: k in s.items && k != v ==> Before(s.log, v, k)
    requires ShortestPrefix(s.(items := s.items - {v}), len, maxSize, rest)
    ensures ShortestPrefix(s, len, maxSize, [v] + rest)
  {
    hide Before, Size;
    var victims := [v] + rest;
    forall n | 0 <= n < |victims| ensures Size(s.items - AsSet(victims[..n])) + len > maxSize {
      if n == 0 {
        assert s.items - AsSet(victims[..0]) == s.items;
      } else {
        assert victims[..n] == [v] + rest[..n - 1];
        assert s.items - AsSet(victims[..n]) == s.items - {v} - AsSet(rest[..n - 1]);
      }
    }
    assert AsSet(victims) == {v} + AsSet(rest);
    assert s.items - AsSet(victims) == s.items - {v} - AsSet(rest);
    forall i, j | 0 <= i < j < |victims| ensures Before(s.log, victims[i], victims[j]) {
      assert victims[j] == rest[j - 1] && rest[j - 1] in AsSet(rest);
    }
  }

  /** The shortest prefix is unique, so the reference alone determines what is evicted. */
  lemma {:induction false} ShortestPrefixUnique(s: Simple, len: nat, maxSize: nat, p: seq<Key>, q: seq<Key>, n: nat)
    requires ShortestPrefix(s, len, maxSize, p) && ShortestPrefix(s, len, maxSize, q)
    requires n <= |p| && n <= |q| && p[..n] == q[..n]
    ensures p == q
    decreases |p| - n
  {
    hide Before, Size;
    if n < |p| && n < |q| {
      if p[n] != q[n] {
        FirstOfRest(s, len, maxSize, p, q, n);
        FirstOfRest(s, len, maxSize, q, p, n);
        assert false;
      }
      assert p[..n + 1] == p[..n] + [p[n]] && q[..n + 1] == q[..n] + [q[n]];
      ShortestPrefixUnique(s, len, maxSize, p, q, n + 1);
    } else if n < |p| {
      assert q == q[..n];
      MoreNeeded(s, len, maxSize, p, n);
      assert false;
    } else if n < |q| {
      assert p == p[..n];
      MoreNeeded(s, len, maxSize, q, n);
      assert false;
    }
  }

  lemma FirstOfRest(s: Simple, len: nat, maxSize: nat, p: seq<Key>, q: seq<Key>, n: nat)
    requires ShortestPrefix(s, len, maxSize, p) && ShortestPrefix(s, len, maxSize, q)
    requires n < |p| && n < |q| && p[..n] == q[..n] && p[n] != q[n]
    ensures Before(s.log, p[n], q[n]) && !Before(s.log, q[n], p[n])
  {
    hide Size;
    MoreNeeded(s, len, maxSize, q, n);
    assert forall i :: 0 <= i < n ==> p[i] == p[..n][i] == q[i];
    if q[n] in p {
      var j :| 0 <= j < |p| && p[j] == q[n];
    }
  }

  lemma MoreNeeded(s: Simple, len: nat, maxSize: nat, q: seq<Key>, n: nat)
    requires ShortestPrefix(s, len, maxSize, q) && n < |q|
    ensures q[n] in s.items && (forall j :: 0 <= j < n ==> q[j] != q[n])
    ensures q[n] !in AsSet(q[..n]) && Size(s.items - AsSet(q[..n])) + len > maxSize
  {
    hide Size;
    assert q[n] in AsSet(q);
    forall j | 0 <= j < n ensures q[j] != q[n] {
      assert Before(s.log, q[j], q[n]);
    }
  }
}
