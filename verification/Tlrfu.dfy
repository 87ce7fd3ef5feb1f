/**
 * The TLRFU cache over pointer lists (crates/ursa-gateway/src/cache/tlrfu.rs): the frequency index
 * maps each frequency to a heap-allocated LRU list. Every method does exactly what its function in
 * module CacheModel says, on every state and along every error path.
 */
module Tlrfu {
  import opened Prelude
  import opened Lru
  import opened CacheModel

  class Tlrfu {
    var store: map<Key, Entry>
    var freq: map<nat, List<nat, Key>>
    var ttl: map<nat, Key>
    var usedSize: int
    const maxSize: nat
    const ttlBuf: nat
    ghost var Repr: set<object>

    ghost predicate Valid()
      reads this`freq, this`Repr, Repr
    {
      && this !in Repr
      && (forall f :: f in freq ==> freq[f] in Repr && (forall n :: n in freq[f].spine ==> n in Repr))
      && (forall f :: f in freq ==> freq[f].Valid() && freq[f].cap == None)
      && (forall f, g :: f in freq && g in freq && f != g ==> freq[f] != freq[g])
    }

    ghost function Buckets(): map<nat, Bucket>
      requires Valid()
      reads this`freq, this`Repr, Repr
    {
      map f | f in freq :: freq[f].Contents()
    }

    ghost function Abs(): Cache
      requires Valid()
      reads this, Repr
    {
      Cache(store, Buckets(), ttl, usedSize, maxSize, ttlBuf)
    }

    constructor (maxSize: nat, ttlBuf: nat)
      ensures Valid() && fresh(Repr)
      ensures Abs() == Empty(maxSize, ttlBuf)
    {
      this.maxSize, this.ttlBuf := maxSize, ttlBuf;
      store, freq, ttl, usedSize := map[], map[], map[], 0;
      Repr := {};
    }

    // ----- one bucket at a time

    /** Drops bucket f from the index if it has become empty. */
    method ShrinkBucket(f: nat)
      requires Valid() && f in freq
      modifies this`freq
      ensures Valid() && Buckets() == Shrunk(old(Buckets()), f, old(Buckets())[f])
    {
      hide List.Valid, List.Contents;
      var empty := freq[f].IsEmpty();
      if empty { freq := freq - {f}; }
    }

    lemma OthersApart(f: nat)
      requires Valid() && f in freq
      ensures forall g, n :: g in freq && g != f && n in freq[g].spine ==> n !in freq[f].spine
    {
      hide List.Valid;
      forall g | g in freq && g != f ensures forall n :: n in freq[g].spine ==> n !in freq[f].spine {
        SpinesDisjoint(freq[g], freq[f]);
      }
    }

    method TakeFrom(f: nat, lruK: nat) returns (key: Option<Key>)
      requires Valid() && f in freq
      modifies freq[f], freq[f].spine
      ensures Valid()
      ensures key == Lookup(old(Buckets())[f], lruK)
      ensures Buckets() == old(Buckets())[f := Without(old(Buckets())[f], lruK)]
    {
      hide List.Valid, List.Contents, Without, Lookup;
      OthersApart(f);
      ghost var spines := map g | g in freq :: freq[g].spine;
      assert forall g, n :: g in spines && g != f && n in spines[g] ==> n !in spines[f];
      key := freq[f].Remove(lruK);
      // the other buckets share no node with this one
      forall g | g in freq && g != f
        ensures freq[g].Valid() && freq[g].spine == spines[g] && freq[g].Contents() == old(freq[g].Contents())
      {
        assert freq[g].spine == spines[g];
        assert forall n :: n in spines[g] ==> n !in spines[f];
        assert forall n :: n in spines[g] ==> old(allocated(n));
        Untouched(freq[g]);
      }
      BucketsUpdated(f, old(Buckets()));
    }

    method PopHead(f: nat) returns (r: Result<Option<Key>, LruError>)
      requires Valid() && f in freq
      modifies freq[f], freq[f].spine
      ensures Valid()
      ensures old(Buckets())[f] == [] ==> r == Err(NoHead) && Buckets() == old(Buckets())
      ensures old(Buckets())[f] != [] ==>
                r == Ok(Some(old(Buckets())[f][0].1)) && Buckets() == old(Buckets())[f := old(Buckets())[f][1..]]
    {
      hide List.Valid, List.Contents;
      OthersApart(f);
      ghost var spines := map g | g in freq :: freq[g].spine;
      assert forall g, n :: g in spines && g != f && n in spines[g] ==> n !in spines[f];
      r := freq[f].RemoveHead();
      // the other buckets share no node with this one
      forall g | g in freq && g != f
        ensures freq[g].Valid() && freq[g].spine == spines[g] && freq[g].Contents() == old(freq[g].Contents())
      {
        assert freq[g].spine == spines[g];
        assert forall n :: n in spines[g] ==> n !in spines[f];
        assert forall n :: n in spines[g] ==> old(allocated(n));
        Untouched(freq[g]);
      }
      BucketsUpdated(f, old(Buckets()));
    }

    /** The bucket for f, created when absent. */
    method EnsureBucket(f: nat)
      requires Valid()
      modifies this`freq, this`Repr
      ensures Valid() && fresh(Repr - old(Repr)) && old(Repr) <= Repr
      ensures f in freq && Buckets() == old(Buckets())[f := BucketAt(old(Buckets()), f)]
      ensures forall g :: g in old(freq) ==> g in freq && freq[g] == old(freq[g])
      ensures f !in old(freq) ==> fresh(freq[f])
    {
      hide List.Valid, List.Contents;
      if f !in freq {
        var lru := new List<nat, Key>(None);
        Repr := Repr + {lru};
        freq := freq[f := lru];
        BucketsExtended(f, old(Buckets()));
      }
    }

    lemma BucketsExtended(f: nat, was: map<nat, Bucket>)
      requires Valid() && f in freq && was.Keys == freq.Keys - {f}
      requires forall g :: g in freq && g != f ==> freq[g].Contents() == was[g]
      ensures Buckets() == was[f := freq[f].Contents()]
    {
      hide List.Valid, List.Contents;
    }

    lemma BucketsUpdated(f: nat, was: map<nat, Bucket>)
      requires Valid() && was.Keys == freq.Keys && f in freq
      requires forall g :: g in freq && g != f ==> freq[g].Contents() == was[g]
      ensures Buckets() == was[f := freq[f].Contents()]
    {
      hide List.Valid, List.Contents;
    }

    method PushTo(f: nat, lruK: nat, key: Key) returns (r: Result<(), LruError>)
      requires Valid() && f in freq
      modifies this`Repr, freq[f], freq[f].spine
      ensures Valid() && fresh(Repr - old(Repr)) && old(Repr) <= Repr
      ensures r == if Lookup(old(Buckets())[f], lruK).Some? then Err(Duplicate) else Ok(())
      ensures Buckets() == old(Buckets())[f := if r.Ok? then old(Buckets())[f] + [(lruK, key)] else old(Buckets())[f]]
    {
      hide List.Valid, List.Contents, Lookup, Inserted;
      OthersApart(f);
      ghost var spines := map g | g in freq :: freq[g].spine;
      assert forall g, n :: g in spines && g != f && n in spines[g] ==> n !in spines[f];
      InsertedUncapped(freq[f].Contents(), lruK, key);
      r := freq[f].Insert(lruK, key);
      // the other buckets share no node with this one
      forall g | g in freq && g != f
        ensures freq[g].Valid() && freq[g].spine == spines[g] && freq[g].Contents() == old(freq[g].Contents())
      {
        assert freq[g].spine == spines[g];
        assert forall n :: n in spines[g] ==> n !in spines[f];
        assert forall n :: n in spines[g] ==> old(allocated(n));
        Untouched(freq[g]);
      }
      label Pushed:
      Repr := Repr + set n | n in freq[f].spine;
      forall g | g in freq ensures freq[g].Valid() && freq[g].Contents() == old@Pushed(freq[g].Contents()) {
        Untouched@Pushed(freq[g]);
      }
      BucketsUpdated(f, old(Buckets()));
    }

    /** Appends `key` to bucket f under the LRU key following its tail's. */
    method AppendTo(f: nat, key: Key) returns (lruK: nat, r: Result<(), LruError>)
      requires Valid() && f in freq
      modifies this`Repr, freq[f], freq[f].spine
      ensures Valid() && fresh(Repr - old(Repr)) && old(Repr) <= Repr
      ensures lruK == NextLruKey(old(Buckets())[f])
      ensures Lookup(old(Buckets())[f], lruK).Some? ==> r == Err(Duplicate) && Buckets() == old(Buckets())
      ensures Lookup(old(Buckets())[f], lruK).None? ==>
                r == Ok(()) && Buckets() == old(Buckets())[f := old(Buckets())[f] + [(lruK, key)]]
    {
      hide List.Valid, List.Contents, Lookup;
      var tail := freq[f].GetTailKey();
      lruK := match tail case None => 0 case Some(k) => k + 1;
      r := PushTo(f, lruK, key);
    }

    /** Takes the slot out of bucket f, dropping the bucket with its last slot. */
    method TakeSlot(f: nat, lruK: nat) returns (key: Option<Key>)
      requires Valid() && f in freq
      modifies this`freq, Repr
      ensures Valid()
      ensures key == Lookup(old(Buckets())[f], lruK)
      ensures key.None? ==> Buckets() == old(Buckets())
      ensures key.Some? ==> Buckets() == Shrunk(old(Buckets()), f, Without(old(Buckets())[f], lruK))
    {
      hide List.Valid, List.Contents, Lookup, Without;
      key := TakeFrom(f, lruK);
      NothingTaken(old(Buckets()), f, lruK);
      if key.Some? { ShrinkBucket(f); }
    }

    lemma NothingTaken(freq: map<nat, Bucket>, f: nat, lruK: nat)
      requires f in freq
      ensures Lookup(freq[f], lruK).None? ==> freq[f := Without(freq[f], lruK)] == freq
    {
    }

    /** Appends a slot for `key` to bucket f, creating the bucket when absent. */
    method AddSlot(f: nat, key: Key) returns (lruK: nat, r: Result<(), LruError>)
      requires Valid()
      modifies this`freq, this`Repr, Repr
      ensures Valid() && fresh(Repr - old(Repr))
      ensures var to := BucketAt(old(Buckets()), f);
              && lruK == NextLruKey(to)
              && r == (if Lookup(to, lruK).Some? then Err(Duplicate) else Ok(()))
              && Buckets() == old(Buckets())[f := if r.Ok? then to + [(lruK, key)] else to]
    {
      hide List.Valid, List.Contents, Lookup, NextLruKey;
      EnsureBucket(f);
      lruK, r := AppendTo(f, key);
    }

    // ----- the operations of the cache

    method Promote(k: Key) returns (r: Result<(), CacheError>)
      requires Valid() && k in store
      modifies this, Repr
      ensures Valid() && fresh(Repr - old(Repr))
      ensures (Abs(), r) == CacheModel.Promote(old(Abs()), k)
    {
      hide List.Valid, List.Contents, Lookup, Without, NextLruKey, Shrunk, BucketAt, Buckets;
      BucketKeys();
      var e := store[k];
      if e.freq !in freq { return Err(FreqNotFound); }
      var taken := TakeSlot(e.freq, e.lruK);
      if taken.None? { return Err(LruKeyNotFound); }
      var lruK, appended := AddSlot(e.freq + 1, taken.value);
      if appended.Err? {
        store := store[k := e.(freq := e.freq + 1)];
        return Err(LruKeyExisted);
      }
      store := store[k := e.(freq := e.freq + 1, lruK := lruK)];
      return Ok(());
    }

    method Get(k: Key, now: int) returns (r: Result<Option<Bytes>, CacheError>)
      requires Valid()
      modifies this, Repr
      ensures Valid() && fresh(Repr - old(Repr))
      ensures (Abs(), r) == CacheModel.Get(old(Abs()), k, now)
    {
      hide List.Valid, List.Contents, CacheModel.Promote, Buckets;
      if k !in store { return Ok(None); }
      var value := store[k].value;
      var promoted := Promote(k);
      StillStored(old(Abs()), k);
      if promoted.Err? { return Err(promoted.error); }
      var e := store[k];
      if e.ttl !in ttl { return Err(TtlNotFound); }
      var key := ttl[e.ttl];
      ttl := ttl - {e.ttl};
      if now < 0 { return Err(BeforeEpoch); }
      store := store[k := e.(ttl := now + ttlBuf)];
      ttl := ttl[now + ttlBuf := key];
      return Ok(Some(value));
    }

    lemma StillStored(c: Cache, k: Key)
      requires k in c.store
      ensures k in CacheModel.Promote(c, k).0.store
    {
    }

    method DirtyGet(k: Key) returns (r: Option<Bytes>)
      requires Valid()
      ensures r == if k in Abs().store then Some(Abs().store[k].value) else None
    {
      r := if k in store then Some(store[k].value) else None;
    }

    lemma BucketKeys()
      requires Valid()
      ensures Buckets().Keys == freq.Keys && (freq.Keys == {} <==> Buckets() == map[])
    {
      assert Buckets().Keys == freq.Keys;
    }

    lemma ShrunkAgain(freq: map<nat, Bucket>, f: nat, b: Bucket)
      ensures Shrunk(freq[f := b], f, b) == Shrunk(freq, f, b)
    {
    }

    /** Takes an entry out of the store, the deadlines and the size. */
    method Forget(key: Key, e: Entry)
      requires Valid()
      modifies this`store, this`usedSize, this`ttl
      ensures Valid() && Buckets() == old(Buckets())
      ensures store == old(store) - {key} && usedSize == old(usedSize) - |e.value| && ttl == old(ttl) - {e.ttl}
    {
      hide List.Valid, List.Contents, Buckets;
      store, usedSize, ttl := store - {key}, usedSize - |e.value|, ttl - {e.ttl};
    }

    method EvictOne() returns (r: Result<(), CacheError>)
      requires Valid()
      modifies this, Repr
      ensures Valid() && fresh(Repr - old(Repr))
      ensures (Abs(), r) == CacheModel.EvictOne(old(Abs()))
    {
      hide List.Valid, List.Contents, Shrunk, Buckets;
      BucketKeys();
      if freq.Keys == {} { return Err(FreqEmpty); }
      var f := Least(freq.Keys);
      var popped := PopHead(f);
      if popped.Err? { return Err(LruNoFirstKey); }
      var key := popped.value.value;
      if key !in store { return Err(StoreNotFound); }
      var e := store[key];
      ShrunkAgain(old(Buckets()), f, old(Buckets())[f][1..]);
      ShrinkBucket(f);
      Forget(key, e);
      return Ok(());
    }

    /** The eviction loop of `insert`. */
    method MakeRoom(len: nat) returns (r: Result<(), CacheError>)
      requires Valid()
      modifies this, Repr
      ensures Valid() && fresh(Repr - old(Repr))
      ensures (Abs(), r) == Evict(old(Abs()), len)
    {
      hide List.Valid, List.Contents, CacheModel.EvictOne, Buckets;
      while usedSize + len > maxSize
        invariant Valid() && fresh(Repr - old(Repr))
        invariant Evict(Abs(), len) == Evict(old(Abs()), len)
        decreases |store|
      {
        EvictOneShrinks(Abs());
        var evicted := EvictOne();
        if evicted.Err? { return Err(evicted.error); }
      }
      return Ok(());
    }

    method Insert(k: Key, v: Bytes, now: int) returns (r: Result<(), CacheError>)
      requires Valid()
      modifies this, Repr
      ensures Valid() && fresh(Repr - old(Repr))
      ensures (Abs(), r) == CacheModel.Insert(old(Abs()), k, v, now)
    {
      hide List.Valid, List.Contents, Evict, NextLruKey, Lookup, BucketAt, Buckets;
      if k in store { return Err(KeyExisted); }
      var room := MakeRoom(|v|);
      if room.Err? { return Err(room.error); }
      var lruK, appended := AddSlot(1, k);
      if appended.Err? { return Err(LruKeyExisted); }
      usedSize := usedSize + |v|;
      if now < 0 { return Err(BeforeEpoch); }
      store := store[k := Entry(v, 1, lruK, now + ttlBuf)];
      ttl := ttl[now + ttlBuf := k];
      return Ok(());
    }

    method ExpireOne() returns (r: Result<(), CacheError>)
      requires Valid() && ttl != map[]
      modifies this, Repr
      ensures Valid() && fresh(Repr - old(Repr))
      ensures (Abs(), r) == CacheModel.ExpireOne(old(Abs()))
    {
      hide List.Valid, List.Contents, Lookup, Without, Shrunk, Buckets;
      assert ttl.Keys != {};
      var key := ttl[Least(ttl.Keys)];
      if key !in store { return Err(StoreNotFound); }
      var e := store[key];
      BucketKeys();
      if e.freq !in freq {
        store := store - {key};
        return Err(FreqNotFound);
      }
      var taken := TakeSlot(e.freq, e.lruK);
      if taken.None? {
        store := store - {key};
        return Err(LruKeyNotFound);
      }
      Forget(key, e);
      return Ok(());
    }

    method ProcessTtlCleanUp(clock: nat -> int) returns (r: Result<nat, CacheError>)
      requires Valid()
      modifies this, Repr
      ensures Valid() && fresh(Repr - old(Repr))
      ensures (Abs(), r) == CleanUp(old(Abs()), clock, 0)
    {
      hide List.Valid, List.Contents, CacheModel.ExpireOne, Buckets;
      var count := 0;
      while ttl != map[]
        invariant Valid() && fresh(Repr - old(Repr))
        invariant CleanUp(Abs(), clock, count) == CleanUp(old(Abs()), clock, 0)
        decreases |store|
      {
        assert ttl.Keys != {};
        if clock(count) < 0 { return Err(BeforeEpoch); }
        if Least(ttl.Keys) > clock(count) { return Ok(count); }
        ExpireOneShrinks(Abs());
        var expired := ExpireOne();
        if expired.Err? { return Err(expired.error); }
        count := count + 1;
      }
      return Ok(count);
    }

    method Purge()
      requires Valid()
      modifies this
      ensures Valid() && Repr == old(Repr)
      ensures Abs() == CacheModel.Purge(old(Abs()))
    {
      store, freq, ttl, usedSize := map[], map[], map[], 0;
      assert Buckets() == map[];
    }
  }
}
