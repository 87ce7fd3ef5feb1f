/**
 * The three indexes of the TLRFU cache agree: what that means, and exactly when each operation
 * keeps it (crates/ursa-gateway/src/cache/tlrfu.rs:56-187).
 */
module CacheInvariant {
  import opened Prelude
  import opened Lru
  import opened CacheModel

  // ----- the invariant

  ghost predicate Ascending(b: Bucket) {
    forall i, j :: 0 <= i < j < |b| ==> b[i].0 < b[j].0
  }

  /** Every stored key sits in exactly one bucket, the one of its frequency, at its LRU key; no
      bucket is empty, nothing else is in a bucket, and LRU keys ascend from head to tail. */
  ghost predicate BucketsAgree(store: map<Key, Entry>, freq: map<nat, Bucket>) {
    && (forall f :: f in freq ==> f >= 1 && freq[f] != [] && Ascending(freq[f]))
    && (forall f, p :: f in freq && p in freq[f] ==> p.1 in store && store[p.1].freq == f && store[p.1].lruK == p.0)
    && (forall k :: k in store ==> store[k].freq in freq && (store[k].lruK, k) in freq[store[k].freq])
  }

  /** Every stored key is filed under its own deadline, and nothing else is filed. */
  ghost predicate DeadlinesAgree(store: map<Key, Entry>, ttl: map<nat, Key>) {
    && (forall k :: k in store ==> store[k].ttl in ttl && ttl[store[k].ttl] == k)
    && (forall d :: d in ttl ==> ttl[d] in store && store[ttl[d]].ttl == d)
  }

  ghost function TotalSize(store: map<Key, Entry>): nat {
    Sum(store.Keys, k => if k in store then |store[k].value| else 0)
  }

  /** What holds whatever deadlines coincide: buckets and byte count agree with the store. */
  ghost predicate Core(c: Cache) {
    && BucketsAgree(c.store, c.freq)
    && c.used == TotalSize(c.store)
    && c.used <= c.maxSize
  }

  ghost predicate Inv(c: Cache) {
    Core(c) && DeadlinesAgree(c.store, c.ttl)
  }

  // ----- buckets: taking an entry out and putting one in

  lemma AscendingDistinct(b: Bucket)
    requires Ascending(b)
    ensures DistinctKeys(b)
  {
  }

  lemma CutAscending(b: Bucket, i: nat)
    requires Ascending(b) && i < |b|
    ensures Ascending(Cut(b, i))
  {
  }

  lemma BucketWithout(b: Bucket, lruK: nat)
    requires Ascending(b)
    ensures Ascending(Without(b, lruK))
    ensures forall p :: p in Without(b, lruK) <==> p in b && p.0 != lruK
  {
    AscendingDistinct(b);
    WithoutMembers(b, lruK);
    if IndexOf(b, lruK) < |b| { CutAscending(b, IndexOf(b, lruK)); }
  }

  lemma AppendAscending(b: Bucket, k: Key)
    requires Ascending(b)
    ensures Lookup(b, NextLruKey(b)).None?
    ensures Ascending(b + [(NextLruKey(b), k)])
  {
  }

  /** `k` has the greatest LRU key of its bucket. */
  ghost predicate Newest(store: map<Key, Entry>, k: Key)
    requires k in store
  {
    forall j :: j in store && j != k && store[j].freq == store[k].freq ==> store[j].lruK < store[k].lruK
  }

  /** An indexed key is found at its LRU key. */
  lemma SlotFound(store: map<Key, Entry>, freq: map<nat, Bucket>, k: Key)
    requires BucketsAgree(store, freq) && k in store
    ensures store[k].freq in freq && Lookup(freq[store[k].freq], store[k].lruK) == Some(k)
  {
    var b := freq[store[k].freq];
    AscendingDistinct(b);
    var i :| 0 <= i < |b| && b[i] == (store[k].lruK, k);
    IndexOfDistinct(b, i);
  }

  /** The head of a bucket names the stored entry that its removal takes out. */
  lemma HeadSlot(store: map<Key, Entry>, freq: map<nat, Bucket>, f: nat)
    requires BucketsAgree(store, freq) && f in freq
    ensures freq[f] != [] && freq[f][0].1 in store && store[freq[f][0].1].freq == f
    ensures Without(freq[f], store[freq[f][0].1].lruK) == freq[f][1..]
  {
    var b := freq[f];
    assert b[0] in b;
    assert IndexOf(b, b[0].0) == 0;
    assert Cut(b, 0) == b[1..];
  }

  lemma EmptyTogether(store: map<Key, Entry>, freq: map<nat, Bucket>)
    requires BucketsAgree(store, freq)
    ensures store == map[] <==> freq == map[]
  {
    if store != map[] {
      var k :| k in store;
      assert store[k].freq in freq;
    }
    if freq != map[] {
      var f :| f in freq;
      HeadSlot(store, freq, f);
    }
  }

  lemma DropSlot(store: map<Key, Entry>, freq: map<nat, Bucket>, k: Key)
    requires BucketsAgree(store, freq) && k in store
    ensures store[k].freq in freq && store[k].freq >= 1
    ensures BucketsAgree(store - {k}, Shrunk(freq, store[k].freq, Without(freq[store[k].freq], store[k].lruK)))
  {
    hide Ascending, Without, Lookup;
    SlotFound(store, freq, k);
    var f, b := store[k].freq, freq[store[k].freq];
    var rest := Without(b, store[k].lruK);
    BucketWithout(b, store[k].lruK);
    var freq' := Shrunk(freq, f, rest);
    forall g: nat, p: (nat, Key) | g in freq' && p in freq'[g]
      ensures p.1 in store - {k} && store[p.1].freq == g && store[p.1].lruK == p.0
    {
      assert p in freq[g];
    }
    forall h | h in store - {k} ensures store[h].freq in freq' && (store[h].lruK, h) in freq'[store[h].freq] {
      assert (store[h].lruK, h) in freq[store[h].freq];
      if store[h].freq == f {
        SlotFound(store, freq, h);
        assert (store[h].lruK, h) in rest;
      }
    }
  }

  /** Every slot of the grown bucket index names a stored entry. */
  lemma AddedSlotsNamed(store: map<Key, Entry>, freq: map<nat, Bucket>, k: Key, e: Entry, g: nat, p: (nat, Key))
    requires BucketsAgree(store, freq) && k !in store
    requires var freq' := freq[e.freq := BucketAt(freq, e.freq) + [(e.lruK, k)]]; g in freq' && p in freq'[g]
    ensures p.1 in store[k := e] && store[k := e][p.1].freq == g && store[k := e][p.1].lruK == p.0
  {
    hide Ascending;
    if p != (e.lruK, k) || g != e.freq {
      assert g in freq && p in freq[g];
    }
  }

  /** Every stored entry has its slot there, and the new one comes last in its bucket. */
  lemma AddedEntrySlotted(store: map<Key, Entry>, freq: map<nat, Bucket>, k: Key, e: Entry, h: Key)
    requires BucketsAgree(store, freq) && k !in store && h in store[k := e]
    requires e.lruK == NextLruKey(BucketAt(freq, e.freq))
    ensures var (store', freq') := (store[k := e], freq[e.freq := BucketAt(freq, e.freq) + [(e.lruK, k)]]);
            && store'[h].freq in freq' && (store'[h].lruK, h) in freq'[store'[h].freq]
            && (h != k && store'[h].freq == e.freq ==> store'[h].lruK < e.lruK)
  {
    var b := BucketAt(freq, e.freq);
    if h == k {
      assert (b + [(e.lruK, k)])[|b|] == (e.lruK, k);
    } else {
      assert (store[h].lruK, h) in freq[store[h].freq];
    }
  }

  lemma AddSlot(store: map<Key, Entry>, freq: map<nat, Bucket>, k: Key, e: Entry)
    requires BucketsAgree(store, freq) && k !in store
    requires e.freq >= 1 && e.lruK == NextLruKey(BucketAt(freq, e.freq))
    ensures Lookup(BucketAt(freq, e.freq), e.lruK).None?
    ensures BucketsAgree(store[k := e], freq[e.freq := BucketAt(freq, e.freq) + [(e.lruK, k)]])
    ensures Newest(store[k := e], k)
  {
    var b := BucketAt(freq, e.freq);
    AppendAscending(b, k);
    hide Ascending, Lookup;
    var store', freq' := store[k := e], freq[e.freq := b + [(e.lruK, k)]];
    forall g: nat, p: (nat, Key) | g in freq' && p in freq'[g]
      ensures p.1 in store' && store'[p.1].freq == g && store'[p.1].lruK == p.0
    {
      AddedSlotsNamed(store, freq, k, e, g, p);
    }
    forall h | h in store'
      ensures store'[h].freq in freq' && (store'[h].lruK, h) in freq'[store'[h].freq]
      ensures h != k && store'[h].freq == e.freq ==> store'[h].lruK < e.lruK
    {
      AddedEntrySlotted(store, freq, k, e, h);
    }
  }

  // ----- sizes

  lemma TotalSizeWithout(store: map<Key, Entry>, k: Key)
    requires k in store
    ensures TotalSize(store) == |store[k].value| + TotalSize(store - {k})
  {
    var size := (h: Key) => if h in store then |store[h].value| else 0;
    var rest := store - {k};
    SumSplit(store.Keys, size, k);
    assert rest.Keys == store.Keys - {k};
    SumCongruent(rest.Keys, size, h => if h in rest then |rest[h].value| else 0);
    SumCongruent(store.Keys, size, h => if h in store then |store[h].value| else 0);
  }

  lemma TotalSizeSame(store: map<Key, Entry>, store': map<Key, Entry>)
    requires store.Keys == store'.Keys
    requires forall k :: k in store ==> store[k].value == store'[k].value
    ensures TotalSize(store) == TotalSize(store')
  {
    SumCongruent(store.Keys, k => if k in store then |store[k].value| else 0,
                 k => if k in store' then |store'[k].value| else 0);
  }

  lemma TotalSizeWith(store: map<Key, Entry>, k: Key, e: Entry)
    requires k !in store
    ensures TotalSize(store[k := e]) == |e.value| + TotalSize(store)
  {
    TotalSizeWithout(store[k := e], k);
    assert store[k := e] - {k} == store;
  }

  // ----- removing one entry from all indexes

  /** The cache without `k`, as both eviction and clean-up leave it. */
  ghost function Removed(c: Cache, k: Key): Cache
    requires k in c.store && c.store[k].freq in c.freq
  {
    var e := c.store[k];
    c.(store := c.store - {k}, freq := Shrunk(c.freq, e.freq, Without(c.freq[e.freq], e.lruK)),
       ttl := c.ttl - {e.ttl}, used := c.used - |e.value|)
  }

  lemma DropDeadline(store: map<Key, Entry>, ttl: map<nat, Key>, k: Key)
    requires DeadlinesAgree(store, ttl) && k in store
    ensures DeadlinesAgree(store - {k}, ttl - {store[k].ttl})
  {
  }

  lemma RemovedKeepsCore(c: Cache, k: Key)
    requires Core(c) && k in c.store
    ensures c.store[k].freq in c.freq && Core(Removed(c, k)) && Removed(c, k).store == c.store - {k}
    ensures |Removed(c, k).store| == |c.store| - 1
  {
    hide BucketsAgree, TotalSize;
    DropSlot(c.store, c.freq, k);
    TotalSizeWithout(c.store, k);
    assert (c.store - {k}).Keys == c.store.Keys - {k};
  }

  lemma RemovedKeepsInv(c: Cache, k: Key)
    requires Inv(c) && k in c.store
    ensures c.store[k].freq in c.freq && Inv(Removed(c, k)) && Removed(c, k).store == c.store - {k}
  {
    hide Core, DeadlinesAgree;
    RemovedKeepsCore(c, k);
    DropDeadline(c.store, c.ttl, k);
  }

  // ----- get

  /** What `get` needs of the clock: a reading after the epoch whose deadline no other entry holds. */
  predicate GetClean(c: Cache, k: Key, now: int) {
    k in c.store ==> now >= 0 && (now + c.ttlBuf in c.ttl ==> c.ttl[now + c.ttlBuf] == k)
  }

  lemma PromoteAgrees(c: Cache, k: Key)
    requires Core(c) && k in c.store
    ensures var (c', r) := Promote(c, k);
            && r.Ok? && BucketsAgree(c'.store, c'.freq)
            && c' == c.(freq := c'.freq, store := c'.store)
            && k in c'.store
            && c'.store == c.store[k := c.store[k].(freq := c.store[k].freq + 1, lruK := c'.store[k].lruK)]
            && Newest(c'.store, k)
  {
    hide BucketsAgree, Ascending, DistinctKeys;
    var e := c.store[k];
    SlotFound(c.store, c.freq, k);
    DropSlot(c.store, c.freq, k);
    var left := Shrunk(c.freq, e.freq, Without(c.freq[e.freq], e.lruK));
    var to := BucketAt(left, e.freq + 1);
    var e' := e.(freq := e.freq + 1, lruK := NextLruKey(to));
    AddSlot(c.store - {k}, left, k, e');
    assert (c.store - {k})[k := e'] == c.store[k := e'];
  }

  /** A hit on any cache whose buckets agree: the entry moves to the end of the next bucket first, and
      then what is filed under its old deadline is filed under the new one. Without such a filing, or
      with a clock before the epoch, the entry keeps its deadline and the call fails. */
  lemma GetKeepsCore(c: Cache, k: Key, now: int)
    requires Core(c) && k in c.store
    ensures var (c', r) := Get(c, k, now);
            var e := c.store[k];
            && Core(c') && c' == c.(store := c'.store, freq := c'.freq, ttl := c'.ttl)
            && k in c'.store && Newest(c'.store, k)
            && c'.store == c.store[k := Entry(e.value, e.freq + 1, c'.store[k].lruK,
                 if e.ttl in c.ttl && now >= 0 then now + c.ttlBuf else e.ttl)]
            && r == (if e.ttl !in c.ttl then Err(TtlNotFound)
                     else if now < 0 then Err(BeforeEpoch) else Ok(Some(e.value)))
            && c'.ttl == (if e.ttl !in c.ttl then c.ttl
                          else if now < 0 then c.ttl - {e.ttl}
                          else (c.ttl - {e.ttl})[now + c.ttlBuf := c.ttl[e.ttl]])
  {
    hide BucketsAgree, TotalSize, Promote, Newest;
    PromoteAgrees(c, k);
    var c1, c2 := Promote(c, k).0, Get(c, k, now).0;
    assert c2 == Renew(c1, k, now).0;
    if c2.store != c1.store { Retimed(c1.store, c1.freq, k, now + c.ttlBuf); }
    TotalSizeSame(c.store, c2.store);
  }

  /** `get` never meets an internal inconsistency, and it leaves the indexes agreeing exactly when
      the clock reads after the epoch and the new deadline is not held by another entry. */
  lemma GetKeepsInv(c: Cache, k: Key, now: int)
    requires Inv(c)
    ensures Inv(Get(c, k, now).0) <==> GetClean(c, k, now)
    ensures k !in c.store ==> Get(c, k, now) == (c, Ok(None))
    ensures k in c.store && now >= 0 ==> Get(c, k, now).1 == Ok(Some(c.store[k].value))
    ensures k in c.store && now < 0 ==> Get(c, k, now).1 == Err(BeforeEpoch)
    ensures k in c.store && now >= 0 ==>
              var c' := Get(c, k, now).0;
              && k in c'.store
              && c'.store == c.store[k :=
                   Entry(c.store[k].value, c.store[k].freq + 1, c'.store[k].lruK, now + c.ttlBuf)]
              && Newest(c'.store, k)
  {
    hide Core, Newest, Get, DeadlinesAgree;
    if k !in c.store {
      Miss(c, k, now);
    } else {
      GetKeepsCore(c, k, now);
      Filed(c.store, c.ttl, k);
      var c2 := Get(c, k, now).0;
      if now < 0 {
        Unfiled(c2.store, c2.ttl, k);
      } else {
        Refiled(c.store, c.ttl, k, c2.store[k]);
      }
    }
  }

  lemma Miss(c: Cache, k: Key, now: int)
    requires k !in c.store
    ensures Get(c, k, now) == (c, Ok(None))
  {
  }

  lemma Filed(store: map<Key, Entry>, ttl: map<nat, Key>, k: Key)
    requires DeadlinesAgree(store, ttl) && k in store
    ensures store[k].ttl in ttl && ttl[store[k].ttl] == k
  {
  }

  lemma Unfiled(store: map<Key, Entry>, ttl: map<nat, Key>, k: Key)
    requires k in store && store[k].ttl !in ttl
    ensures !DeadlinesAgree(store, ttl)
  {
  }

  /** Filing a key under a new deadline keeps agreement exactly when no other key is filed there. */
  lemma Refiled(store: map<Key, Entry>, ttl: map<nat, Key>, k: Key, e: Entry)
    requires DeadlinesAgree(store, ttl) && k in store
    ensures DeadlinesAgree(store[k := e], (ttl - {store[k].ttl})[e.ttl := k]) <==> (e.ttl in ttl ==> ttl[e.ttl] == k)
  {
    if e.ttl in ttl && ttl[e.ttl] != k {
      assert store[k := e][ttl[e.ttl]].ttl == e.ttl;
    }
  }

  lemma Retimed(store: map<Key, Entry>, freq: map<nat, Bucket>, k: Key, d: nat)
    requires BucketsAgree(store, freq) && k in store
    ensures BucketsAgree(store[k := store[k].(ttl := d)], freq)
    ensures Newest(store, k) ==> Newest(store[k := store[k].(ttl := d)], k)
  {
  }

  // ----- insert

  lemma EmptyCache(c: Cache)
    requires Inv(c) && c.store == map[]
    ensures c == Purge(c)
  {
    EmptyTogether(c.store, c.freq);
    assert forall d :: d !in c.ttl;
  }

  lemma EvictOneRemoves(c: Cache)
    requires Core(c)
    ensures c.store == map[] <==> c.freq == map[]
    ensures c.store == map[] ==> EvictOne(c) == (c, Err(FreqEmpty))
    ensures c.store != map[] ==>
              && c.freq.Keys != {} && c.freq[Least(c.freq.Keys)] != []
              && var k := c.freq[Least(c.freq.Keys)][0].1;
              && k in c.store && c.store[k].freq in c.freq && EvictOne(c) == (Removed(c, k), Ok(()))
  {
    hide BucketsAgree;
    EmptyTogether(c.store, c.freq);
    if c.freq != map[] {
      assert c.freq.Keys != {};
      HeadSlot(c.store, c.freq, Least(c.freq.Keys));
    }
  }

  /** The eviction loop, unrolled once. */
  lemma EvictSteps(c: Cache, len: nat)
    requires Core(c)
    ensures c.used + len <= c.maxSize ==> Evict(c, len) == (c, Ok(()))
    ensures c.used + len > c.maxSize && c.store == map[] ==> Evict(c, len) == (c, Err(FreqEmpty))
    ensures c.used + len > c.maxSize && c.store != map[] ==>
              && c.freq.Keys != {} && c.freq[Least(c.freq.Keys)] != []
              && var v := c.freq[Least(c.freq.Keys)][0].1;
              && v in c.store && c.store[v].freq in c.freq && |Removed(c, v).store| < |c.store|
              && Evict(c, len) == Evict(Removed(c, v), len)
  {
    hide BucketsAgree, TotalSize, Shrunk;
    EvictOneRemoves(c);
    EvictOneShrinks(c);
  }

  /** Eviction, whatever deadlines coincide: it makes room exactly when the value can fit at all, and
      otherwise empties the store; survivors are unchanged, and only deadlines of victims are dropped. */
  lemma {:induction false} EvictKeepsCore(c: Cache, len: nat)
    requires Core(c)
    ensures var (c', r) := Evict(c, len);
            && Core(c') && c'.maxSize == c.maxSize && c'.ttlBuf == c.ttlBuf
            && (len <= c.maxSize ==> r == Ok(()) && c'.used + len <= c.maxSize)
            && (len > c.maxSize ==> r == Err(FreqEmpty) && c'.store == map[])
            && (forall k :: k in c'.store ==> k in c.store && c.store[k] == c'.store[k])
            && c'.ttl == c.ttl - (set k | k in c.store && k !in c'.store :: c.store[k].ttl)
    decreases |c.store|
  {
    hide Core, Shrunk, Evict;
    EvictSteps(c, len);
    UsedWithin(c);
    if c.used + len > c.maxSize && c.store != map[] {
      var k := c.freq[Least(c.freq.Keys)][0].1;
      RemovedKeepsCore(c, k);
      EvictKeepsCore(Removed(c, k), len);
      var c' := Evict(c, len).0;
      assert (set h | h in c.store && h !in c'.store :: c.store[h].ttl)
          == {c.store[k].ttl} + set h | h in c.store - {k} && h !in c'.store :: c.store[h].ttl;
    }
  }

  lemma UsedWithin(c: Cache)
    requires Core(c)
    ensures 0 <= c.used <= c.maxSize && (c.store == map[] ==> c.used == 0)
  {
  }

  /** Eviction keeps the indexes agreeing; it makes room exactly when the value can fit at all,
      and otherwise empties the cache. */
  lemma {:induction false} EvictKeepsInv(c: Cache, len: nat)
    requires Inv(c)
    ensures Inv(Evict(c, len).0)
    ensures Evict(c, len).0.maxSize == c.maxSize && Evict(c, len).0.ttlBuf == c.ttlBuf
    ensures len <= c.maxSize ==> Evict(c, len).1 == Ok(()) && Evict(c, len).0.used + len <= c.maxSize
    ensures len > c.maxSize ==> Evict(c, len).1 == Err(FreqEmpty) && Evict(c, len).0 == Purge(c)
    ensures forall k :: k in Evict(c, len).0.store ==> k in c.store && c.store[k] == Evict(c, len).0.store[k]
    decreases |c.store|
  {
    hide Core, DeadlinesAgree;
    EvictSteps(c, len);
    EvictKeepsCore(c, len);
    if c.used + len > c.maxSize {
      if c.store == map[] {
        EmptyCache(c);
      } else {
        var k := c.freq[Least(c.freq.Keys)][0].1;
        RemovedKeepsInv(c, k);
        EvictKeepsInv(Removed(c, k), len);
      }
    }
  }

  /** What `insert` needs of the clock, when the value is admitted: a reading after the epoch whose
      deadline no surviving entry holds. */
  predicate InsertClean(c: Cache, k: Key, v: Bytes, now: int) {
    k !in c.store && |v| <= c.maxSize ==> now >= 0 && now + c.ttlBuf !in Evict(c, |v|).0.ttl
  }

  /** A value that fits, whatever deadlines coincide: it is filed under all three indexes, or, when
      the clock reads before the epoch, its bytes are counted and its bucket slot is taken, but nothing
      is stored. */
  lemma AdmitKeepsCore(c: Cache, k: Key, v: Bytes, now: int)
    requires Core(c) && k !in c.store && c.used + |v| <= c.maxSize
    ensures var (c', r) := Admit(c, k, v, now);
            && c'.used == c.used + |v| && c'.maxSize == c.maxSize && c'.ttlBuf == c.ttlBuf
            && (Core(c') <==> now >= 0)
            && (now < 0 ==>
                  && r == Err(BeforeEpoch) && c'.store == c.store && c'.ttl == c.ttl
                  && c'.freq == c.freq[1 := BucketAt(c.freq, 1) + [(NextLruKey(BucketAt(c.freq, 1)), k)]])
            && (now >= 0 ==>
                  && r == Ok(()) && k in c'.store && c'.ttl == c.ttl[now + c.ttlBuf := k]
                  && c'.store == c.store[k := Entry(v, 1, c'.store[k].lruK, now + c.ttlBuf)]
                  && Newest(c'.store, k))
  {
    hide BucketsAgree, TotalSize;
    var to := BucketAt(c.freq, 1);
    var e := Entry(v, 1, NextLruKey(to), if now < 0 then 0 else now + c.ttlBuf);
    AddSlot(c.store, c.freq, k, e);
    var c' := Admit(c, k, v, now).0;
    if now < 0 {
      DanglingSlot(c'.store, c'.freq, 1, |to|);
    } else {
      TotalSizeWith(c.store, k, e);
    }
  }

  /** A value that fits is filed under all three indexes, if the clock allows it. */
  lemma AdmitKeepsInv(c: Cache, k: Key, v: Bytes, now: int)
    requires Inv(c) && k !in c.store && c.used + |v| <= c.maxSize
    ensures var (c', r) := Admit(c, k, v, now);
            && (Inv(c') <==> now >= 0 && now + c.ttlBuf !in c.ttl)
            && (now < 0 ==> r == Err(BeforeEpoch))
            && (now >= 0 ==>
                  && r == Ok(()) && k in c'.store
                  && c'.store == c.store[k := Entry(v, 1, c'.store[k].lruK, now + c.ttlBuf)]
                  && Newest(c'.store, k)
                  && c'.used == c.used + |v|)
  {
    hide Core, Newest, Admit;
    AdmitKeepsCore(c, k, v, now);
    var c' := Admit(c, k, v, now).0;
    if now >= 0 && now + c.ttlBuf in c.ttl {
      var j := c.ttl[now + c.ttlBuf];
      assert c'.store[j].ttl == now + c.ttlBuf && c'.ttl[now + c.ttlBuf] != j;
    }
  }

  lemma DanglingSlot(store: map<Key, Entry>, freq: map<nat, Bucket>, f: nat, i: nat)
    requires f in freq && i < |freq[f]| && freq[f][i].1 !in store
    ensures !BucketsAgree(store, freq)
  {
    assert freq[f][i] in freq[f];
  }

  /** `insert` on any cache whose buckets agree. */
  lemma InsertKeepsCore(c: Cache, k: Key, v: Bytes, now: int)
    requires Core(c)
    ensures var (c', r) := Insert(c, k, v, now);
            var kept := Evict(c, |v|).0;
            && c'.maxSize == c.maxSize && c'.ttlBuf == c.ttlBuf
            && (Core(c') <==> k in c.store || |v| > c.maxSize || now >= 0)
            && (k in c.store ==> c' == c && r == Err(KeyExisted))
            && (k !in c.store && |v| > c.maxSize ==> c' == kept && r == Err(FreqEmpty))
            && (k !in c.store && |v| <= c.maxSize ==>
                  && r == (if now < 0 then Err(BeforeEpoch) else Ok(()))
                  && c'.used == kept.used + |v|
                  && (now < 0 ==> c'.store == kept.store && c'.ttl == kept.ttl)
                  && (now >= 0 ==>
                        && k in c'.store && c'.ttl == kept.ttl[now + c.ttlBuf := k]
                        && c'.store == kept.store[k := Entry(v, 1, c'.store[k].lruK, now + c.ttlBuf)]
                        && Newest(c'.store, k)))
  {
    hide Core, Admit, Evict, Newest;
    EvictKeepsCore(c, |v|);
    if k !in c.store && |v| <= c.maxSize {
      AdmitKeepsCore(Evict(c, |v|).0, k, v, now);
    }
  }

  /** `insert` fails exactly on a present key, on a value that cannot fit, or on a clock before the
      epoch; a value that fits is filed with frequency 1 after eviction; and the indexes agree
      afterwards exactly when the clock reads after the epoch and the deadline is new. */
  lemma InsertKeepsInv(c: Cache, k: Key, v: Bytes, now: int)
    requires Inv(c)
    ensures Inv(Insert(c, k, v, now).0) <==> InsertClean(c, k, v, now)
    ensures k in c.store ==> Insert(c, k, v, now) == (c, Err(KeyExisted))
    ensures k !in c.store && |v| > c.maxSize ==> Insert(c, k, v, now) == (Purge(c), Err(FreqEmpty))
    ensures k !in c.store && |v| <= c.maxSize && now < 0 ==> Insert(c, k, v, now).1 == Err(BeforeEpoch)
    ensures k !in c.store && |v| <= c.maxSize && now >= 0 ==>
              var (c', r) := Insert(c, k, v, now);
              var kept := Evict(c, |v|).0;
              && r == Ok(()) && k in c'.store
              && c'.store == kept.store[k := Entry(v, 1, c'.store[k].lruK, now + c.ttlBuf)]
              && Newest(c'.store, k)
              && c'.used == kept.used + |v| <= c.maxSize
  {
    hide BucketsAgree, DeadlinesAgree, TotalSize, Admit, Evict;
    EvictKeepsInv(c, |v|);
    if k !in c.store && |v| <= c.maxSize {
      AdmitKeepsInv(Evict(c, |v|).0, k, v, now);
    }
  }

  // ----- process_ttl_clean_up

  lemma ExpireOneRemoves(c: Cache)
    requires Inv(c)
    ensures c.ttl == map[] <==> c.store == map[]
    ensures c.ttl != map[] ==>
              && c.ttl.Keys != {}
              && var k := c.ttl[Least(c.ttl.Keys)];
              && k in c.store && c.store[k].ttl == Least(c.ttl.Keys)
              && c.store[k].freq in c.freq && ExpireOne(c) == (Removed(c, k), Ok(()))
  {
    hide BucketsAgree;
    if c.ttl != map[] {
      assert c.ttl.Keys != {};
      SlotFound(c.store, c.freq, c.ttl[Least(c.ttl.Keys)]);
    }
    if c.store != map[] {
      var k :| k in c.store;
      assert c.store[k].ttl in c.ttl;
    }
  }

  /** One turn of the clean-up on any cache whose buckets agree: the key filed under the first deadline
      goes, or, when it is not stored, nothing changes and the call fails. */
  lemma ExpireOneCases(c: Cache)
    requires Core(c) && c.ttl != map[]
    ensures c.ttl.Keys != {}
    ensures var k := c.ttl[Least(c.ttl.Keys)];
            if k in c.store then c.store[k].freq in c.freq && ExpireOne(c) == (Removed(c, k), Ok(()))
            else ExpireOne(c) == (c, Err(StoreNotFound))
  {
    hide BucketsAgree, TotalSize;
    assert c.ttl.Keys != {};
    if c.ttl[Least(c.ttl.Keys)] in c.store { SlotFound(c.store, c.freq, c.ttl[Least(c.ttl.Keys)]); }
  }

  /** Clean-up on any cache whose buckets agree keeps them so and leaves survivors unchanged; it fails
      only on a reading before the epoch or on a filed key that is not stored. */
  lemma {:induction false} CleanUpKeepsCore(c: Cache, clock: nat -> int, i: nat)
    requires Core(c)
    ensures var (c', r) := CleanUp(c, clock, i);
            && Core(c') && c'.maxSize == c.maxSize && c'.ttlBuf == c.ttlBuf
            && (forall k :: k in c'.store ==> k in c.store && c'.store[k] == c.store[k])
            && (r.Ok? ==> |c'.store| == |c.store| - (r.value - i))
            && (r.Err? ==> r.error == BeforeEpoch || r.error == StoreNotFound)
    decreases |c.store|
  {
    hide Core, CleanUp, Removed, Least;
    CleanUpTurn(c, clock, i);
    if c.ttl != map[] && clock(i) >= 0 && Least(c.ttl.Keys) <= clock(i) {
      var k := c.ttl[Least(c.ttl.Keys)];
      if k in c.store {
        var rest := Removed(c, k);
        RemovedKeepsCore(c, k);
        CleanUpKeepsCore(rest, clock, i + 1);
      }
    }
  }

  lemma CleanUpTurn(c: Cache, clock: nat -> int, i: nat)
    requires Core(c)
    ensures c.ttl == map[] ==> CleanUp(c, clock, i) == (c, Ok(i))
    ensures c.ttl != map[] ==>
              && c.ttl.Keys != {}
              && var (d, k) := (Least(c.ttl.Keys), c.ttl[Least(c.ttl.Keys)]);
              if clock(i) < 0 then CleanUp(c, clock, i) == (c, Err(BeforeEpoch))
              else if d > clock(i) then CleanUp(c, clock, i) == (c, Ok(i))
              else if k !in c.store then CleanUp(c, clock, i) == (c, Err(StoreNotFound))
              else
                && c.store[k].freq in c.freq
                && Removed(c, k).maxSize == c.maxSize && Removed(c, k).ttlBuf == c.ttlBuf
                && CleanUp(c, clock, i) == CleanUp(Removed(c, k), clock, i + 1)
  {
    hide Core, Shrunk, ExpireOne;
    if c.ttl != map[] { ExpireOneCases(c); }
  }

  /** The clean-up loop, unrolled once. */
  lemma CleanUpSteps(c: Cache, clock: nat -> int, i: nat)
    requires Inv(c)
    ensures c.store == map[] ==> CleanUp(c, clock, i) == (c, Ok(i))
    ensures c.store != map[] && clock(i) < 0 ==> CleanUp(c, clock, i) == (c, Err(BeforeEpoch))
    ensures c.store != map[] && 0 <= clock(i) ==>
              && c.ttl.Keys != {}
              && var k := c.ttl[Least(c.ttl.Keys)];
              && k in c.store && c.store[k].freq in c.freq && |Removed(c, k).store| < |c.store|
              && c.store[k].ttl == Least(c.ttl.Keys) && Inv(Removed(c, k)) && Removed(c, k).store == c.store - {k}
              && CleanUp(c, clock, i) ==
                   if c.store[k].ttl > clock(i) then (c, Ok(i)) else CleanUp(Removed(c, k), clock, i + 1)
  {
    hide BucketsAgree, DeadlinesAgree, TotalSize, Shrunk;
    ExpireOneRemoves(c);
    if c.ttl != map[] {
      ExpireOneShrinks(c);
      RemovedKeepsInv(c, c.ttl[Least(c.ttl.Keys)]);
    }
  }

  /** Whatever the clock reads, clean-up keeps the indexes agreeing; it can only fail on a reading
      before the epoch. */
  lemma {:induction false} CleanUpKeepsInv(c: Cache, clock: nat -> int, i: nat)
    requires Inv(c)
    ensures Inv(CleanUp(c, clock, i).0)
    ensures CleanUp(c, clock, i).0.maxSize == c.maxSize && CleanUp(c, clock, i).0.ttlBuf == c.ttlBuf
    ensures CleanUp(c, clock, i).1.Err? ==>
              CleanUp(c, clock, i).1 == Err(BeforeEpoch) && exists n: nat :: n >= i && clock(n) < 0
    decreases |c.store|
  {
    hide BucketsAgree, DeadlinesAgree;
    hide CleanUp;
    CleanUpSteps(c, clock, i);
    if c.store != map[] && 0 <= clock(i) && Least(c.ttl.Keys) <= clock(i) {
      var k := c.ttl[Least(c.ttl.Keys)];
      CleanUpKeepsInv(Removed(c, k), clock, i + 1);
    }
  }

  ghost function Unexpired(store: map<Key, Entry>, t: int): map<Key, Entry> {
    map k | k in store && store[k].ttl > t :: store[k]
  }

  ghost predicate NeverGoesBack(clock: nat -> int) {
    forall m: nat, n: nat :: m <= n ==> clock(m) <= clock(n)
  }

  /** With readings i, i + 1, ... up to j, one per removed entry and one more if an entry is left,
      exactly the entries due at the last reading went. */
  ghost predicate ExactlyDue(store: map<Key, Entry>, store': map<Key, Entry>, clock: nat -> int, i: nat, j: nat) {
    && j - i == |store| - |store'|
    && (if store == map[] then store' == map[]
        else if store' == map[] then j > 0 && Unexpired(store, clock(j - 1)) == map[]
        else store' == Unexpired(store, clock(j)))
  }

  lemma OneMoreDue(store: map<Key, Entry>, k: Key, rest: map<Key, Entry>, store': map<Key, Entry>,
                   clock: nat -> int, i: nat, j: nat)
    requires k in store && store[k].ttl <= clock(i) && NeverGoesBack(clock)
    requires i < j && rest == store - {k} && ExactlyDue(rest, store', clock, i + 1, j)
    ensures ExactlyDue(store, store', clock, i, j)
  {
    assert rest.Keys == store.Keys - {k};
    if rest == map[] {
      assert store' == Unexpired(store, clock(i));
    } else {
      var last := if store' == map[] then j - 1 else j;
      assert clock(i) <= clock(last);
      assert Unexpired(rest, clock(last)) == Unexpired(store, clock(last));
    }
  }

  /** With a clock that never goes back, clean-up removes exactly the entries whose deadline is at
      or before the last reading, returns their number and leaves every other entry as it was. */
  lemma {:induction false} CleanUpExact(c: Cache, clock: nat -> int, i: nat)
    requires Inv(c) && NeverGoesBack(clock)
    requires clock(i) >= 0 || c.store == map[]
    ensures Inv(CleanUp(c, clock, i).0)
    ensures CleanUp(c, clock, i).1.Ok? && CleanUp(c, clock, i).1.value >= i
    ensures ExactlyDue(c.store, CleanUp(c, clock, i).0.store, clock, i, CleanUp(c, clock, i).1.value)
    decreases |c.store|
  {
    hide Inv, Shrunk, Unexpired, CleanUp, NeverGoesBack;
    CleanUpSteps(c, clock, i);
    if c.store == map[] || Least(c.ttl.Keys) > clock(i) {
      NoneDue(c, clock, i);
    } else {
      var k := c.ttl[Least(c.ttl.Keys)];
      NextReading(clock, i);
      CleanUpExact(Removed(c, k), clock, i + 1);
      var done := CleanUp(Removed(c, k), clock, i + 1);
      OneMoreDue(c.store, k, Removed(c, k).store, done.0.store, clock, i, done.1.value);
    }
  }

  lemma NextReading(clock: nat -> int, i: nat)
    requires NeverGoesBack(clock)
    ensures clock(i) <= clock(i + 1)
  {
  }

  lemma NoneDue(c: Cache, clock: nat -> int, i: nat)
    requires Inv(c) && (c.store == map[] || (c.ttl.Keys != {} && clock(i) < Least(c.ttl.Keys)))
    ensures ExactlyDue(c.store, c.store, clock, i, i)
  {
    hide BucketsAgree, TotalSize;
    if c.store != map[] {
      assert forall k :: k in c.store ==> c.store[k].ttl in c.ttl.Keys;
      assert Unexpired(c.store, clock(i)) == c.store;
    }
  }

  // ----- clean-up under any clock

  ghost function DueDates(store: map<Key, Entry>): map<Key, nat> {
    map k | k in store :: store[k].ttl
  }

  ghost function Due(dates: map<Key, nat>, t: int): set<Key> {
    set k | k in dates && dates[k] <= t
  }

  /** With j - i entries gone, the j-th reading is after the epoch and finds one more entry due. */
  ghost predicate GoesOn(dates: map<Key, nat>, clock: nat -> int, i: nat, j: nat) {
    clock(j) >= 0 && |Due(dates, clock(j))| > j - i
  }

  /** The keys that went were all due earlier than those that are left. */
  ghost predicate EarliestGone(dates: map<Key, nat>, dates': map<Key, nat>) {
    && (forall k :: k in dates' ==> k in dates && dates'[k] == dates[k])
    && (forall k, h :: k in dates && k !in dates' && h in dates' ==> dates[k] < dates[h])
  }

  /** The j-th reading is the first, from the i-th on, that does not let the clean-up go on. */
  ghost predicate StopsAt(dates: map<Key, nat>, clock: nat -> int, i: nat, j: nat) {
    i <= j && (forall l :: i <= l < j ==> GoesOn(dates, clock, i, l)) && !GoesOn(dates, clock, i, j)
  }

  /** The clean-up that reads the clock from the i-th reading on stops at the j-th; by then the j - i
      entries with the earliest deadlines are gone. */
  ghost predicate CleanedAt(dates: map<Key, nat>, dates': map<Key, nat>, clock: nat -> int, i: nat, j: nat) {
    StopsAt(dates, clock, i, j) && EarliestGone(dates, dates') && |dates| - |dates'| == j - i
  }

  lemma DueWithFirst(dates: map<Key, nat>, k: Key, rest: map<Key, nat>, t: int)
    requires k in dates && rest == dates - {k}
    requires forall h :: h in rest ==> dates[k] < dates[h]
    ensures |Due(rest, t)| > 0 ==> |Due(dates, t)| == |Due(rest, t)| + 1
    ensures |Due(dates, t)| <= |Due(rest, t)| + 1
    ensures dates[k] <= t ==> |Due(dates, t)| > 0
  {
    if dates[k] <= t {
      assert Due(dates, t) == Due(rest, t) + {k};
    } else {
      assert Due(rest, t) == {} && Due(dates, t) == {};
    }
  }

  lemma OneMoreReading(dates: map<Key, nat>, k: Key, rest: map<Key, nat>, clock: nat -> int, i: nat, j: nat)
    requires k in dates && rest == dates - {k} && 0 <= clock(i) && dates[k] <= clock(i)
    requires forall h :: h in rest ==> dates[k] < dates[h]
    requires StopsAt(rest, clock, i + 1, j)
    ensures StopsAt(dates, clock, i, j)
  {
    hide Due;
    forall l | i <= l < j ensures GoesOn(dates, clock, i, l) {
      DueWithFirst(dates, k, rest, clock(l));
      if l > i { assert GoesOn(rest, clock, i + 1, l); }
    }
    DueWithFirst(dates, k, rest, clock(j));
  }

  lemma OneMoreCleaned(dates: map<Key, nat>, k: Key, rest: map<Key, nat>, dates': map<Key, nat>,
                       clock: nat -> int, i: nat, j: nat)
    requires k in dates && rest == dates - {k} && 0 <= clock(i) && dates[k] <= clock(i)
    requires forall h :: h in rest ==> dates[k] < dates[h]
    requires CleanedAt(rest, dates', clock, i + 1, j)
    ensures CleanedAt(dates, dates', clock, i, j)
  {
    hide StopsAt, EarliestGone;
    OneMoreReading(dates, k, rest, clock, i, j);
    OneMoreGone(dates, k, rest, dates');
  }

  lemma OneMoreGone(dates: map<Key, nat>, k: Key, rest: map<Key, nat>, dates': map<Key, nat>)
    requires k in dates && rest == dates - {k} && EarliestGone(rest, dates')
    requires forall h :: h in rest ==> dates[k] < dates[h]
    ensures EarliestGone(dates, dates') && |dates| == |rest| + 1
  {
    assert rest.Keys == dates.Keys - {k};
  }

  lemma NoneCleaned(c: Cache, clock: nat -> int, i: nat)
    requires Inv(c) && (c.store == map[] || clock(i) < 0 || (c.ttl.Keys != {} && clock(i) < Least(c.ttl.Keys)))
    ensures CleanedAt(DueDates(c.store), DueDates(c.store), clock, i, i)
  {
    hide BucketsAgree, TotalSize;
    if c.store == map[] || clock(i) >= 0 {
      forall k | k in c.store ensures c.store[k].ttl in c.ttl.Keys { }
      assert Due(DueDates(c.store), clock(i)) == {};
    }
  }

  /** The entry filed under the first deadline is due before every other. */
  lemma FirstIsEarliest(c: Cache, k: Key)
    requires Inv(c) && k in c.store && c.ttl.Keys != {} && c.store[k].ttl == Least(c.ttl.Keys)
    ensures DueDates(c.store - {k}) == DueDates(c.store) - {k}
    ensures forall h :: h in DueDates(c.store) - {k} ==> DueDates(c.store)[k] < DueDates(c.store)[h]
  {
    hide BucketsAgree, TotalSize;
    forall h | h in c.store && h != k ensures c.store[k].ttl < c.store[h].ttl {
      assert c.store[h].ttl in c.ttl.Keys;
    }
  }

  /** Whatever the clock reads, also when it goes back: clean-up removes the entries with the earliest
      deadlines, one per reading that finds an entry due, keeps the others unchanged, and fails exactly
      when the reading it stops at is before the epoch and an entry is left. */
  lemma {:induction false} CleanUpAnyClock(c: Cache, clock: nat -> int, i: nat) returns (j: nat)
    requires Inv(c)
    ensures CleanedAt(DueDates(c.store), DueDates(CleanUp(c, clock, i).0.store), clock, i, j)
    ensures forall k :: k in CleanUp(c, clock, i).0.store ==>
              k in c.store && CleanUp(c, clock, i).0.store[k] == c.store[k]
    ensures CleanUp(c, clock, i).1 ==
              if CleanUp(c, clock, i).0.store != map[] && clock(j) < 0 then Err(BeforeEpoch) else Ok(j)
    decreases |c.store|
  {
    hide Inv, Shrunk, CleanUp, DueDates, CleanedAt;
    CleanUpSteps(c, clock, i);
    if c.store == map[] || clock(i) < 0 || Least(c.ttl.Keys) > clock(i) {
      NoneCleaned(c, clock, i);
      j := i;
    } else {
      var k := c.ttl[Least(c.ttl.Keys)];
      FirstIsEarliest(c, k);
      j := CleanUpAnyClock(Removed(c, k), clock, i + 1);
      InDates(c.store, k);
      OneMoreCleaned(DueDates(c.store), k, DueDates(Removed(c, k).store),
                     DueDates(CleanUp(c, clock, i).0.store), clock, i, j);
    }
  }

  lemma InDates(store: map<Key, Entry>, k: Key)
    requires k in store
    ensures k in DueDates(store) && DueDates(store)[k] == store[k].ttl
  {
  }
}
