/**
 * The index provider and the publishing of a DAG, as objects: clones share the head cell and the
 * block store (crates/ursa-index-provider/src/provider.rs:42-158), and `publish_local` advertises
 * the multihashes of a traversal in chunks (crates/ursa-index-provider/src/engine.rs:222-251).
 */
module Provider {
  import opened Prelude
  import opened DagGraph
  import opened DagWalks
  import C = AdChain

  const MAX_ENTRIES: nat := 6250000

  class HeadCell {
    var value: Option<Cid>

    constructor (value: Option<Cid>)
      ensures this.value == value
    {
      this.value := value;
    }
  }

  class BlockDb {
    var blocks: map<Cid, Bytes>
    /** What is written under the key "head". */
    var headKey: Option<Cid>
  }

  class Provider {
    const head: HeadCell
    const store: BlockDb
    var tempAds: map<nat, C.Ad>

    ghost function Shared(): C.Chain
      reads head, store
    {
      C.Chain(store.blocks, store.headKey, head.value)
    }

    /** A new provider resumes at the persisted head. */
    constructor (store: BlockDb)
      ensures this.store == store && fresh(head) && tempAds == map[]
      ensures Shared() == C.Chain(store.blocks, store.headKey, store.headKey)
    {
      this.store := store;
      head := new HeadCell(store.headKey);
      tempAds := map[];
    }

    /** A clone shares the head and the store, and copies the unpublished advertisements. */
    constructor Clone(p: Provider)
      ensures head == p.head && store == p.store && tempAds == p.tempAds
    {
      head, store, tempAds := p.head, p.store, p.tempAds;
    }

    /** `id` is the random number drawn by the source. */
    method Create(id: nat, ad: C.Ad)
      modifies this`tempAds
      ensures tempAds == C.Create(old(tempAds), id, ad)
    {
      tempAds := tempAds[id := ad.(entries := None)];
    }

    method AddChunk(k: C.Codec, bytes: Bytes, id: nat) returns (r: Result<(), C.AdError>)
      modifies this`tempAds, store`blocks
      ensures (Shared(), tempAds, r) == C.AddChunk(k, old(Shared()), old(tempAds), bytes, id)
    {
      var entries := k.decodeEntries(bytes);
      if entries.None? { return Err(C.BadEntries); }
      if id !in tempAds { return Err(C.AdNotFound); }
      var ad := tempAds[id];
      var block := k.encodeChunk(C.Chunk(entries.value, ad.entries));
      store.blocks := store.blocks[k.hash(block) := block];
      tempAds := tempAds[id := ad.(entries := Some(k.hash(block)))];
      return Ok(());
    }

    method Publish(k: C.Codec, id: nat) returns (r: Result<C.Ad, C.AdError>)
      modifies this`tempAds, store, head
      ensures (Shared(), tempAds, r) == C.Publish(k, old(Shared()), old(tempAds), id)
    {
      var currentHead := head.value;
      head.value := None;
      if id !in tempAds { return Err(C.AdNotFound); }
      var ad := tempAds[id];
      tempAds := tempAds - {id};
      ad := ad.(previous := currentHead);
      var sig := k.sign(C.TermsOf(ad));
      if sig.None? { return Err(C.SigningFailed); }
      ad := ad.(signature := sig.value);
      var block := k.encodeAd(ad);
      var cid := k.hash(block);
      store.blocks := store.blocks[cid := block];
      store.headKey := Some(cid);
      head.value := Some(cid);
      return Ok(ad);
    }
  }

  // ----- publish_local

  /** The entries of a chunk list, from the oldest chunk (the last reached) to the newest. */
  function OldestFirst(chunks: seq<seq<Bytes>>): seq<Bytes> {
    if chunks == [] then [] else OldestFirst(chunks[1..]) + chunks[0]
  }

  function Hashes(blocks: seq<(Cid, Bytes)>): seq<Bytes> {
    seq(|blocks|, i requires 0 <= i < |blocks| => blocks[i].0.hash)
  }

  /** No chunk is empty or too large, and all but the newest are full. */
  ghost predicate WellSized(chunks: seq<seq<Bytes>>) {
    && (forall i :: 0 <= i < |chunks| ==> 1 <= |chunks[i]| <= MAX_ENTRIES)
    && (forall i :: 0 < i < |chunks| ==> |chunks[i]| == MAX_ENTRIES)
  }

  /** The number of chunks that `n` entries fill. */
  function ChunkCount(n: nat): nat {
    (n + MAX_ENTRIES - 1) / MAX_ENTRIES
  }

  /** So the entries determine the chunks: their number, and what each of them holds. */
  lemma {:induction false} ChunksDetermined(chunks: seq<seq<Bytes>>, entries: seq<Bytes>, i: nat)
    requires WellSized(chunks) && OldestFirst(chunks) == entries
    ensures |chunks| == ChunkCount(|entries|)
    ensures i < |chunks| ==>
              var first := MAX_ENTRIES * (|chunks| - 1 - i);
              first + |chunks[i]| <= |entries| && chunks[i] == entries[first..first + |chunks[i]|]
    decreases |chunks|
  {
    if chunks != [] {
      var older := entries[..|entries| - |chunks[0]|];
      assert entries == OldestFirst(chunks[1..]) + chunks[0];
      assert OldestFirst(chunks[1..]) == older;
      if |chunks| > 1 { AllFull(chunks[1..]); }
      ChunksDetermined(chunks[1..], older, if i == 0 then 0 else i - 1);
    }
  }

  lemma {:induction false} AllFull(chunks: seq<seq<Bytes>>)
    requires forall i :: 0 <= i < |chunks| ==> |chunks[i]| == MAX_ENTRIES
    ensures |OldestFirst(chunks)| == MAX_ENTRIES * |chunks|
  {
    if chunks != [] { AllFull(chunks[1..]); }
  }

  datatype LocalError = Incomplete(walk: WalkError) | PublishFailed

  /** The advertised chunks, oldest first, are the multihashes of the traversal, in its order, cut as
      `ChunksDetermined` says. */
  ghost predicate Advertises(s: Store, k: C.Codec, blocks: map<Cid, Bytes>, root: Cid, ad: C.Ad) {
    exists chunks, dag ::
      && IsTraversal(s, root, Ok(dag))
      && C.ChunkWalks(k, blocks, ad.entries, chunks)
      && WellSized(chunks)
      && OldestFirst(chunks) == Hashes(dag)
  }

  /** So the advertised set is that of the multihashes of the ids reachable from the root. */
  lemma AdvertisedSet(s: Store, root: Cid, dag: seq<(Cid, Bytes)>, h: Bytes)
    requires IsTraversal(s, root, Ok(dag))
    ensures h in Hashes(dag) <==> exists c :: Reachable(s, root, c) && c.hash == h
  {
    hide Reachable;
    if h in Hashes(dag) {
      var i :| 0 <= i < |dag| && Hashes(dag)[i] == h;
      assert dag[i] in dag && dag[i].0 in Cids(dag);
    }
    if c :| Reachable(s, root, c) && c.hash == h {
      assert c in Cids(dag);
      var b :| b in dag && b.0 == c;
      var i :| 0 <= i < |dag| && dag[i] == b;
      assert Hashes(dag)[i] == h;
    }
  }

  method PublishLocal(p: Provider, k: C.Codec, format: Format, root: Cid, body: C.AdBody, id: nat)
    returns (r: Result<C.Ad, LocalError>)
    requires C.Sound(k) && C.Honest(k, p.store.blocks)
    modifies p`tempAds, p.store, p.head
    ensures r.Err? && r.error.Incomplete? <==>
              !forall c :: Reachable(Store(old(p.store.blocks), format), root, c) ==>
                         Store(old(p.store.blocks), format).Good(c)
    ensures r.Err? && r.error.Incomplete? ==> p.Shared() == old(p.Shared())
    ensures r.Err? && r.error.PublishFailed? ==>
              && p.head.value == None && p.store.headKey == old(p.store.headKey)
              && exists entries :: k.sign(C.Terms(old(p.head.value), entries, body)).None?
    ensures r.Ok? ==> Advertises(Store(old(p.store.blocks), format), k, p.store.blocks, root, r.value)
    ensures r.Ok? ==> r.value.body == body && r.value.previous == old(p.head.value) && C.Signed(k, r.value)
    ensures p.tempAds - {id} == old(p.tempAds) - {id} && (id in p.tempAds <==> r.Err? && r.error.Incomplete?)
    ensures r.Ok? ==> forall ads :: C.ChainInv(k, old(p.Shared()), ads) ==> C.ChainInv(k, p.Shared(), [r.value] + ads)
  {
    hide Reachable, C.ChainInv;
    p.Create(id, C.Ad(None, None, [], body));
    var dag := DagTraversal(Store(p.store.blocks, format), root);
    if dag.Err? { return Err(Incomplete(dag.error)); }
    var entries := Hashes(dag.value);
    ghost var chunks := AddChunks(p, k, entries, id);
    ghost var before := p.store.blocks;
    ghost var filed, temp := p.Shared(), p.tempAds;
    var published := p.Publish(k, id);
    if published.Err? { return Err(PublishFailed); }
    C.PutKeeps(k, before, k.encodeAd(published.value));
    C.ChunkWalksKept(k, before, p.store.blocks, published.value.entries, chunks);
    assert Advertises(Store(old(p.store.blocks), format), k, p.store.blocks, root, published.value);
    forall ads | C.ChainInv(k, old(p.Shared()), ads) ensures C.ChainInv(k, p.Shared(), [published.value] + ads) {
      C.PublishLinks(k, filed, temp, id, ads);
    }
    return Ok(published.value);
  }

  /** Adds the entries in chunks of MAX_ENTRIES, the last one with what is left. */
  method AddChunks(p: Provider, k: C.Codec, entries: seq<Bytes>, id: nat) returns (ghost chunks: seq<seq<Bytes>>)
    requires C.Sound(k) && C.Honest(k, p.store.blocks) && id in p.tempAds && p.tempAds[id].entries == None
    modifies p`tempAds, p.store`blocks
    ensures C.Honest(k, p.store.blocks)
    ensures id in p.tempAds && p.tempAds[id] == old(p.tempAds[id]).(entries := p.tempAds[id].entries)
    ensures C.ChunkWalks(k, p.store.blocks, p.tempAds[id].entries, chunks)
    ensures WellSized(chunks) && OldestFirst(chunks) == entries
    ensures p.tempAds - {id} == old(p.tempAds) - {id}
    ensures forall ads :: C.ChainInv(k, old(p.Shared()), ads) ==> C.ChainInv(k, p.Shared(), ads)
  {
    hide C.Sound, C.ChainInv;
    chunks := [];
    var i := 0;
    while i < |entries|
      invariant i <= |entries|
      invariant C.Honest(k, p.store.blocks)
      invariant id in p.tempAds && p.tempAds[id] == old(p.tempAds[id]).(entries := p.tempAds[id].entries)
      invariant C.ChunkWalks(k, p.store.blocks, p.tempAds[id].entries, chunks)
      invariant WellSized(chunks) && OldestFirst(chunks) == entries[..i]
      invariant i < |entries| ==> chunks == [] || |chunks[0]| == MAX_ENTRIES
      invariant p.tempAds - {id} == old(p.tempAds) - {id}
      invariant forall ads :: C.ChainInv(k, old(p.Shared()), ads) ==> C.ChainInv(k, p.Shared(), ads)
    {
      var j := if i + MAX_ENTRIES <= |entries| then i + MAX_ENTRIES else |entries|;
      var bytes := k.encodeEntries(entries[i..j]);
      C.AddChunkPushes(k, p.Shared(), p.tempAds, entries[i..j], id, chunks);
      C.AddChunkKeepsBlocks(k, p.Shared(), p.tempAds, bytes, id);
      forall ads | C.ChainInv(k, p.Shared(), ads)
        ensures C.ChainInv(k, C.AddChunk(k, p.Shared(), p.tempAds, bytes, id).0, ads)
      {
        C.AddChunkKeeps(k, p.Shared(), p.tempAds, bytes, id, ads);
      }
      var r := p.AddChunk(k, bytes, id);
      chunks := [entries[i..j]] + chunks;
      assert entries[..i] + entries[i..j] == entries[..j];
      i := j;
    }
    assert entries[..|entries|] == entries;
  }
}
