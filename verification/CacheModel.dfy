/**
 * The gateway's TLRFU cache as a value: what each operation of
 * crates/ursa-gateway/src/cache/tlrfu.rs does to its three indexes and its byte count, on every
 * state and along every error path. The heap version is module Tlrfu; the laws are in
 * modules CacheInvariant, CacheReference and Worker.
 */
module CacheModel {
  import opened Prelude
  import opened Lru

  type Key = string

  datatype Entry = Entry(value: Bytes, freq: nat, lruK: nat, ttl: nat)

  /** One frequency bucket, oldest access first: (lru key, cache key) pairs. */
  type Bucket = seq<(nat, Key)>

  datatype Cache = Cache(
    store: map<Key, Entry>,
    freq: map<nat, Bucket>,
    ttl: map<nat, Key>,
    used: int,
    maxSize: nat,
    ttlBuf: nat)

  datatype CacheError =
    | KeyExisted | FreqNotFound | LruKeyNotFound | LruKeyExisted | LruNoFirstKey
    | FreqEmpty | StoreNotFound | TtlNotFound | BeforeEpoch

  function Empty(maxSize: nat, ttlBuf: nat): Cache {
    Cache(map[], map[], map[], 0, maxSize, ttlBuf)
  }

  // ----- ordered-map and bucket helpers

  lemma {:induction false} LeastExists(s: set<nat>, x: nat)
    requires x in s
    ensures exists m :: m in s && forall y :: y in s ==> m <= y
    decreases x
  {
    if y :| y in s && y < x { LeastExists(s, y); }
  }

  /** The first key of an ordered map. */
  function Least(s: set<nat>): (m: nat)
    requires s != {}
    ensures m in s && forall x :: x in s ==> m <= x
  {
    assert exists x :: x in s;
    LeastExists(s, var x :| x in s; x);
    var m :| m in s && forall x :: x in s ==> m <= x;
    m
  }

  function BucketAt(freq: map<nat, Bucket>, f: nat): Bucket {
    if f in freq then freq[f] else []
  }

  /** Stores a shrunken bucket, dropping it when it has become empty. */
  function Shrunk(freq: map<nat, Bucket>, f: nat, b: Bucket): map<nat, Bucket> {
    if b == [] then freq - {f} else freq[f := b]
  }

  /** The LRU key the next entry of a bucket gets. */
  function NextLruKey(b: Bucket): nat {
    match TailKey(b) case None => 0 case Some(k) => k + 1
  }

  // ----- get

  /** Moves `k` from its bucket to the end of the next one. */
  function Promote(c: Cache, k: Key): (Cache, Result<(), CacheError>)
    requires k in c.store
  {
    var e := c.store[k];
    if e.freq !in c.freq then (c, Err(FreqNotFound)) else
    var from := c.freq[e.freq];
    match Lookup(from, e.lruK)
    case None => (c, Err(LruKeyNotFound))
    case Some(key) =>
      var left := Shrunk(c.freq, e.freq, Without(from, e.lruK));
      var to := BucketAt(left, e.freq + 1);
      var lruK := NextLruKey(to);
      if Lookup(to, lruK).Some? then
        (c.(freq := left[e.freq + 1 := to], store := c.store[k := e.(freq := e.freq + 1)]), Err(LruKeyExisted))
      else
        (c.(freq := left[e.freq + 1 := to + [(lruK, key)]],
            store := c.store[k := e.(freq := e.freq + 1, lruK := lruK)]), Ok(()))
  }

  /** Replaces the deadline of `k` by one computed from the clock reading `now`. */
  function Renew(c: Cache, k: Key, now: int): (Cache, Result<(), CacheError>)
    requires k in c.store
  {
    var e := c.store[k];
    if e.ttl !in c.ttl then (c, Err(TtlNotFound)) else
    var key := c.ttl[e.ttl];
    var freed := c.ttl - {e.ttl};
    if now < 0 then (c.(ttl := freed), Err(BeforeEpoch)) else
    var deadline := now + c.ttlBuf;
    (c.(ttl := freed[deadline := key], store := c.store[k := e.(ttl := deadline)]), Ok(()))
  }

  function Get(c: Cache, k: Key, now: int): (Cache, Result<Option<Bytes>, CacheError>) {
    if k !in c.store then (c, Ok(None)) else
    match Promote(c, k)
    case (c1, Err(err)) => (c1, Err(err))
    case (c1, Ok(_)) =>
      match Renew(c1, k, now)
      case (c2, Err(err)) => (c2, Err(err))
      case (c2, Ok(_)) => (c2, Ok(Some(c.store[k].value)))
  }

  // ----- insert

  /** One turn of the eviction loop: drops the head of the least bucket. */
  function EvictOne(c: Cache): (Cache, Result<(), CacheError>) {
    if c.freq == map[] then (c, Err(FreqEmpty)) else
    assert c.freq.Keys != {};
    var f := Least(c.freq.Keys);
    var lru := c.freq[f];
    if lru == [] then (c, Err(LruNoFirstKey)) else
    var key := lru[0].1;
    if key !in c.store then (c.(freq := c.freq[f := lru[1..]]), Err(StoreNotFound)) else
    var e := c.store[key];
    (c.(store := c.store - {key}, freq := Shrunk(c.freq, f, lru[1..]),
        used := c.used - |e.value|, ttl := c.ttl - {e.ttl}), Ok(()))
  }

  lemma EvictOneShrinks(c: Cache)
    ensures EvictOne(c).1.Ok? ==> |EvictOne(c).0.store| < |c.store|
  {
    if EvictOne(c).1.Ok? {
      var key := c.freq[Least(c.freq.Keys)][0].1;
      assert c.store.Keys - {key} == (c.store - {key}).Keys;
    }
  }

  function Evict(c: Cache, len: nat): (Cache, Result<(), CacheError>)
    decreases |c.store|
  {
    if c.used + len <= c.maxSize then (c, Ok(())) else
    EvictOneShrinks(c);
    match EvictOne(c)
    case (c1, Err(err)) => (c1, Err(err))
    case (c1, Ok(_)) => Evict(c1, len)
  }

  /** Files a new entry under frequency 1, in the store and under its deadline. */
  function Admit(c: Cache, k: Key, v: Bytes, now: int): (Cache, Result<(), CacheError>) {
    var to := BucketAt(c.freq, 1);
    var lruK := NextLruKey(to);
    if Lookup(to, lruK).Some? then (c.(freq := c.freq[1 := to]), Err(LruKeyExisted)) else
    var c1 := c.(freq := c.freq[1 := to + [(lruK, k)]], used := c.used + |v|);
    if now < 0 then (c1, Err(BeforeEpoch)) else
    var deadline := now + c.ttlBuf;
    (c1.(store := c.store[k := Entry(v, 1, lruK, deadline)], ttl := c.ttl[deadline := k]), Ok(()))
  }

  function Insert(c: Cache, k: Key, v: Bytes, now: int): (Cache, Result<(), CacheError>) {
    if k in c.store then (c, Err(KeyExisted)) else
    match Evict(c, |v|)
    case (c1, Err(err)) => (c1, Err(err))
    case (c1, Ok(_)) => Admit(c1, k, v, now)
  }

  // ----- process_ttl_clean_up

  /** One turn of the clean-up loop, once the entry filed under the first deadline is due. */
  function ExpireOne(c: Cache): (Cache, Result<(), CacheError>)
    requires c.ttl != map[]
  {
    assert c.ttl.Keys != {};
    var key := c.ttl[Least(c.ttl.Keys)];
    if key !in c.store then (c, Err(StoreNotFound)) else
    var e := c.store[key];
    var c1 := c.(store := c.store - {key});
    if e.freq !in c.freq then (c1, Err(FreqNotFound)) else
    var lru := c.freq[e.freq];
    if Lookup(lru, e.lruK).None? then (c1, Err(LruKeyNotFound)) else
    (c1.(freq := Shrunk(c.freq, e.freq, Without(lru, e.lruK)),
         used := c.used - |e.value|, ttl := c.ttl - {e.ttl}), Ok(()))
  }

  lemma ExpireOneShrinks(c: Cache)
    requires c.ttl != map[]
    ensures ExpireOne(c).1.Ok? ==> |ExpireOne(c).0.store| < |c.store|
  {
    if ExpireOne(c).1.Ok? {
      var key := c.ttl[Least(c.ttl.Keys)];
      assert c.store.Keys - {key} == (c.store - {key}).Keys;
    }
  }

  /** The clean-up loop with `count` entries removed so far; `clock(i)` is its i-th clock reading. */
  function CleanUp(c: Cache, clock: nat -> int, count: nat): (Cache, Result<nat, CacheError>)
    decreases |c.store|
  {
    if c.ttl == map[] then (c, Ok(count)) else
    assert c.ttl.Keys != {};
    if clock(count) < 0 then (c, Err(BeforeEpoch)) else
    if Least(c.ttl.Keys) > clock(count) then (c, Ok(count)) else
    ExpireOneShrinks(c);
    match ExpireOne(c)
    case (c1, Err(err)) => (c1, Err(err))
    case (c1, Ok(_)) => CleanUp(c1, clock, count + 1)
  }

  // ----- purge

  function Purge(c: Cache): Cache {
    Empty(c.maxSize, c.ttlBuf)
  }
}
