/**
 * The index provider's advertisement chain (crates/ursa-index-provider/src/provider.rs): a
 * content-addressed linked list of advertisements, each pointing at a content-addressed linked list
 * of entry chunks, grown through any number of clones that share the head and the block store.
 */
module AdChain {
  import opened Prelude
  import opened DagGraph

  datatype AdBody = AdBody(provider: string, addresses: seq<string>, contextId: Bytes, metadata: Bytes, isRm: bool)

  datatype Ad = Ad(previous: Option<Cid>, entries: Option<Cid>, signature: Bytes, body: AdBody)

  /** What a signature is computed from: an advertisement without its signature. */
  datatype Terms = Terms(previous: Option<Cid>, entries: Option<Cid>, body: AdBody)

  function TermsOf(ad: Ad): Terms {
    Terms(ad.previous, ad.entries, ad.body)
  }

  datatype Chunk = Chunk(entries: seq<Bytes>, next: Option<Cid>)

  /** Hashing, encodings and signing, given from outside. */
  datatype Codec = Codec(
    hash: Bytes -> Cid,
    encodeAd: Ad -> Bytes,
    decodeAd: Bytes -> Option<Ad>,
    encodeChunk: Chunk -> Bytes,
    decodeChunk: Bytes -> Option<Chunk>,
    encodeEntries: seq<Bytes> -> Bytes,
    decodeEntries: Bytes -> Option<seq<Bytes>>,
    sign: Terms -> Option<Bytes>)

  /** Hashing is free of collisions and encodings round trip. */
  ghost predicate Sound(k: Codec) {
    && (forall a, b :: k.hash(a) == k.hash(b) ==> a == b)
    && (forall ad :: k.decodeAd(k.encodeAd(ad)) == Some(ad))
    && (forall c :: k.decodeChunk(k.encodeChunk(c)) == Some(c))
    && (forall es :: k.decodeEntries(k.encodeEntries(es)) == Some(es))
  }

  /** What all clones share: the block store, the head it persists and the head in memory. */
  datatype Chain = Chain(blocks: map<Cid, Bytes>, persisted: Option<Cid>, head: Option<Cid>)

  datatype AdError = AdNotFound | BadEntries | SigningFailed

  // ----- operations

  function Create(temp: map<nat, Ad>, id: nat, ad: Ad): map<nat, Ad> {
    temp[id := ad.(entries := None)]
  }

  function AddChunk(k: Codec, chain: Chain, temp: map<nat, Ad>, bytes: Bytes, id: nat)
    : (Chain, map<nat, Ad>, Result<(), AdError>)
  {
    match k.decodeEntries(bytes)
    case None => (chain, temp, Err(BadEntries))
    case Some(entries) =>
      if id !in temp then (chain, temp, Err(AdNotFound)) else
      var block := k.encodeChunk(Chunk(entries, temp[id].entries));
      (chain.(blocks := chain.blocks[k.hash(block) := block]),
       temp[id := temp[id].(entries := Some(k.hash(block)))], Ok(()))
  }

  /** `publish` takes the head out before it looks the id up, and puts one back only on success. */
  function Publish(k: Codec, chain: Chain, temp: map<nat, Ad>, id: nat): (Chain, map<nat, Ad>, Result<Ad, AdError>) {
    if id !in temp then (chain.(head := None), temp, Err(AdNotFound)) else
    var ad := temp[id].(previous := chain.head);
    match k.sign(TermsOf(ad))
    case None => (chain.(head := None), temp - {id}, Err(SigningFailed))
    case Some(sig) =>
      var signed := ad.(signature := sig);
      var block := k.encodeAd(signed);
      (Chain(chain.blocks[k.hash(block) := block], Some(k.hash(block)), Some(k.hash(block))), temp - {id}, Ok(signed))
  }

  // ----- walking the chain

  function AdCid(k: Codec, ad: Ad): Cid {
    k.hash(k.encodeAd(ad))
  }

  /** Following `PreviousID` from `head` visits exactly `ads`, in this order, and stops. */
  ghost predicate Walks(k: Codec, blocks: map<Cid, Bytes>, head: Option<Cid>, ads: seq<Ad>)
    decreases |ads|
  {
    match head
    case None => ads == []
    case Some(c) =>
      && ads != [] && c in blocks && k.decodeAd(blocks[c]) == Some(ads[0])
      && Walks(k, blocks, ads[0].previous, ads[1..])
  }

  /** Following `Next` from `head` visits exactly these chunks, in this order, and stops. */
  ghost predicate ChunkWalks(k: Codec, blocks: map<Cid, Bytes>, head: Option<Cid>, chunks: seq<seq<Bytes>>)
    decreases |chunks|
  {
    match head
    case None => chunks == []
    case Some(c) =>
      && chunks != [] && c in blocks && k.decodeChunk(blocks[c]).Some?
      && k.decodeChunk(blocks[c]).value.entries == chunks[0]
      && ChunkWalks(k, blocks, k.decodeChunk(blocks[c]).value.next, chunks[1..])
  }

  /** A block is only ever stored under its own hash. */
  ghost predicate Honest(k: Codec, blocks: map<Cid, Bytes>) {
    forall c, b :: c in blocks && k.hash(b) == c ==> blocks[c] == b
  }

  ghost predicate Kept(blocks: map<Cid, Bytes>, blocks': map<Cid, Bytes>) {
    forall c :: c in blocks ==> c in blocks' && blocks'[c] == blocks[c]
  }

  lemma PutKeeps(k: Codec, blocks: map<Cid, Bytes>, block: Bytes)
    requires Sound(k) && Honest(k, blocks)
    ensures Kept(blocks, blocks[k.hash(block) := block]) && Honest(k, blocks[k.hash(block) := block])
  {
  }

  lemma {:induction false} WalksKept(k: Codec, blocks: map<Cid, Bytes>, blocks': map<Cid, Bytes>,
                                      head: Option<Cid>, ads: seq<Ad>)
    requires Kept(blocks, blocks') && Walks(k, blocks, head, ads)
    ensures Walks(k, blocks', head, ads)
    decreases |ads|
  {
    if head.Some? { WalksKept(k, blocks, blocks', ads[0].previous, ads[1..]); }
  }

  lemma {:induction false} ChunkWalksKept(k: Codec, blocks: map<Cid, Bytes>, blocks': map<Cid, Bytes>,
                                           head: Option<Cid>, chunks: seq<seq<Bytes>>)
    requires Kept(blocks, blocks') && ChunkWalks(k, blocks, head, chunks)
    ensures ChunkWalks(k, blocks', head, chunks)
    decreases |chunks|
  {
    if head.Some? { ChunkWalksKept(k, blocks, blocks', k.decodeChunk(blocks[head.value]).value.next, chunks[1..]); }
  }

  /** A walk is determined by its head. */
  lemma {:induction false} WalksUnique(k: Codec, blocks: map<Cid, Bytes>, head: Option<Cid>, a: seq<Ad>, b: seq<Ad>)
    requires Walks(k, blocks, head, a) && Walks(k, blocks, head, b)
    ensures a == b
    decreases |a|
  {
    if head.Some? {
      WalksUnique(k, blocks, a[0].previous, a[1..], b[1..]);
      assert a == [a[0]] + a[1..] && b == [b[0]] + b[1..];
    }
  }

  lemma {:induction false} ChunkWalksUnique(k: Codec, blocks: map<Cid, Bytes>, head: Option<Cid>,
                                             a: seq<seq<Bytes>>, b: seq<seq<Bytes>>)
    requires ChunkWalks(k, blocks, head, a) && ChunkWalks(k, blocks, head, b)
    ensures a == b
    decreases |a|
  {
    if head.Some? {
      ChunkWalksUnique(k, blocks, k.decodeChunk(blocks[head.value]).value.next, a[1..], b[1..]);
      assert a == [a[0]] + a[1..] && b == [b[0]] + b[1..];
    }
  }

  // ----- the invariant of the chain

  /** `ads` are the published advertisements, newest first. */
  ghost predicate Linked(k: Codec, ads: seq<Ad>) {
    forall i {:trigger ads[i].previous} :: 0 <= i < |ads| ==>
      ads[i].previous == if i + 1 < |ads| then Some(AdCid(k, ads[i + 1])) else None
  }

  /** `head` is the newest of `ads`, and walking from it visits them all and stops. */
  ghost predicate Heads(k: Codec, blocks: map<Cid, Bytes>, head: Option<Cid>, ads: seq<Ad>) {
    && head == (if ads == [] then None else Some(AdCid(k, ads[0])))
    && Linked(k, ads)
    && Walks(k, blocks, head, ads)
  }

  ghost predicate ChainInv(k: Codec, chain: Chain, ads: seq<Ad>) {
    Honest(k, chain.blocks) && chain.persisted == chain.head && Heads(k, chain.blocks, chain.head, ads)
  }

  lemma AddChunkKeepsBlocks(k: Codec, chain: Chain, temp: map<nat, Ad>, bytes: Bytes, id: nat)
    requires Sound(k) && Honest(k, chain.blocks)
    ensures var chain' := AddChunk(k, chain, temp, bytes, id).0;
            Honest(k, chain'.blocks) && Kept(chain.blocks, chain'.blocks) && chain' == chain.(blocks := chain'.blocks)
  {
    if k.decodeEntries(bytes).Some? && id in temp {
      PutKeeps(k, chain.blocks, k.encodeChunk(Chunk(k.decodeEntries(bytes).value, temp[id].entries)));
    }
  }

  lemma AddChunkKeeps(k: Codec, chain: Chain, temp: map<nat, Ad>, bytes: Bytes, id: nat, ads: seq<Ad>)
    requires Sound(k) && ChainInv(k, chain, ads)
    ensures ChainInv(k, AddChunk(k, chain, temp, bytes, id).0, ads)
  {
    AddChunkKeepsBlocks(k, chain, temp, bytes, id);
    WalksKept(k, chain.blocks, AddChunk(k, chain, temp, bytes, id).0.blocks, chain.head, ads);
  }

  /** A chunk is pushed on the front of its advertisement's chunk list. */
  lemma AddChunkPushes(k: Codec, chain: Chain, temp: map<nat, Ad>, entries: seq<Bytes>,
                       id: nat, chunks: seq<seq<Bytes>>)
    requires Sound(k) && Honest(k, chain.blocks) && id in temp && ChunkWalks(k, chain.blocks, temp[id].entries, chunks)
    ensures var (chain', temp', r) := AddChunk(k, chain, temp, k.encodeEntries(entries), id);
            && r == Ok(()) && id in temp'
            && ChunkWalks(k, chain'.blocks, temp'[id].entries, [entries] + chunks)
  {
    var block := k.encodeChunk(Chunk(entries, temp[id].entries));
    var blocks' := chain.blocks[k.hash(block) := block];
    PutKeeps(k, chain.blocks, block);
    ChunkWalksKept(k, chain.blocks, blocks', temp[id].entries, chunks);
    assert ([entries] + chunks)[1..] == chunks;
  }

  /** Whether `publish` will succeed. */
  predicate Publishable(k: Codec, chain: Chain, temp: map<nat, Ad>, id: nat) {
    id in temp && k.sign(Terms(chain.head, temp[id].entries, temp[id].body)).Some?
  }

  /** The advertisement carries the signature given for its own terms. */
  predicate Signed(k: Codec, ad: Ad) {
    k.sign(TermsOf(ad)) == Some(ad.signature)
  }

  ghost predicate AllSigned(k: Codec, ads: seq<Ad>) {
    forall ad :: ad in ads ==> Signed(k, ad)
  }

  /** Unpublished advertisements other than `id` are left alone. */
  ghost predicate OthersKept(temp: map<nat, Ad>, temp': map<nat, Ad>, id: nat) {
    temp - {id} == temp' - {id}
  }

  /** Creating makes an advertisement known, without entries; adding a chunk changes nothing but its
      entries; publishing makes it unknown, whether it succeeds or not. None of them touches another
      advertisement, and none reports an unknown id unless it is one. */
  lemma PendingAds(k: Codec, chain: Chain, temp: map<nat, Ad>, id: nat, ad: Ad, bytes: Bytes)
    ensures var created := Create(temp, id, ad);
            && OthersKept(temp, created, id) && id in created
            && created[id] == Ad(ad.previous, None, ad.signature, ad.body)
    ensures var (chain', added, r) := AddChunk(k, chain, temp, bytes, id);
            && OthersKept(temp, added, id) && (id in added <==> id in temp)
            && (id in temp ==> added[id] == temp[id].(entries := added[id].entries))
            && (r.Ok? <==> id in temp && k.decodeEntries(bytes).Some?)
            && (r.Err? ==> added == temp && chain' == chain)
            && (r == Err(AdNotFound) <==> id !in temp && k.decodeEntries(bytes).Some?)
    ensures var (chain', left, r) := Publish(k, chain, temp, id);
            && OthersKept(temp, left, id) && id !in left
            && (r == Err(AdNotFound) <==> id !in temp)
            && (r.Ok? <==> Publishable(k, chain, temp, id))
            && (r.Err? ==> chain' == chain.(head := None))
            && Publish(k, chain', left, id).2 == Err(AdNotFound)
  {
  }

  /** A successful publish puts the advertisement in front of what the head in memory leads to, and
      persists the new head. */
  lemma PublishHeads(k: Codec, chain: Chain, temp: map<nat, Ad>, id: nat, ads: seq<Ad>)
    requires Sound(k) && Honest(k, chain.blocks) && Heads(k, chain.blocks, chain.head, ads)
    requires Publishable(k, chain, temp, id)
    ensures var (chain', temp', r) := Publish(k, chain, temp, id);
            && r.Ok? && Honest(k, chain'.blocks) && Kept(chain.blocks, chain'.blocks)
            && r.value.body == temp[id].body && r.value.entries == temp[id].entries
            && r.value.previous == chain.head && Signed(k, r.value)
            && chain'.persisted == chain'.head && Heads(k, chain'.blocks, chain'.head, [r.value] + ads)
  {
    var (chain', temp', r) := Publish(k, chain, temp, id);
    PutKeeps(k, chain.blocks, k.encodeAd(r.value));
    WalksKept(k, chain.blocks, chain'.blocks, chain.head, ads);
    var ads' := [r.value] + ads;
    assert ads'[1..] == ads;
    forall i | 0 <= i < |ads'|
      ensures ads'[i].previous == if i + 1 < |ads'| then Some(AdCid(k, ads'[i + 1])) else None
    {
      if i > 0 { assert ads'[i].previous == ads[i - 1].previous; }
    }
  }

  lemma PublishLinks(k: Codec, chain: Chain, temp: map<nat, Ad>, id: nat, ads: seq<Ad>)
    requires Sound(k) && ChainInv(k, chain, ads) && Publishable(k, chain, temp, id)
    ensures var (chain', temp', r) := Publish(k, chain, temp, id);
            && r.Ok? && Kept(chain.blocks, chain'.blocks)
            && r.value.body == temp[id].body && r.value.entries == temp[id].entries
            && r.value.previous == chain.head && Signed(k, r.value)
            && ChainInv(k, chain', [r.value] + ads)
  {
    PublishHeads(k, chain, temp, id, ads);
  }

  /** Publishing keeps the chain in order exactly when it succeeds or there is no chain yet: a failed
      publish forgets the head. */
  lemma PublishExactly(k: Codec, chain: Chain, temp: map<nat, Ad>, id: nat, ads: seq<Ad>)
    requires Sound(k) && ChainInv(k, chain, ads)
    ensures var (chain', temp', r) := Publish(k, chain, temp, id);
            && (r.Ok? <==> Publishable(k, chain, temp, id))
            && ((exists ads' :: ChainInv(k, chain', ads')) <==> r.Ok? || ads == [])
  {
    var (chain', temp', r) := Publish(k, chain, temp, id);
    if r.Ok? {
      PublishLinks(k, chain, temp, id, ads);
    } else if ads == [] {
      assert ChainInv(k, chain', ads);
    }
  }

  /** After any failed publish, of an unknown id or of one that cannot be signed, the next
      advertisement has no predecessor: the walk from the head visits it alone, and everything published
      before is cut off. */
  lemma FailedPublishCutsChain(k: Codec, chain: Chain, temp: map<nat, Ad>, failing: nat, id: nat, ads: seq<Ad>)
    requires Sound(k) && ChainInv(k, chain, ads) && !Publishable(k, chain, temp, failing)
    requires var (failed, left, _) := Publish(k, chain, temp, failing); Publishable(k, failed, left, id)
    ensures var (failed, left, _) := Publish(k, chain, temp, failing);
            var (chain', _, r) := Publish(k, failed, left, id);
            r.Ok? && Walks(k, chain'.blocks, chain'.head, [r.value])
  {
    var (failed, left, _) := Publish(k, chain, temp, failing);
    PublishHeads(k, failed, left, id, []);
  }

  lemma AdCidInjective(k: Codec, a: Ad, b: Ad)
    requires Sound(k)
    ensures AdCid(k, a) == AdCid(k, b) ==> a == b
  {
    assert k.decodeAd(k.encodeAd(a)) == Some(a) && k.decodeAd(k.encodeAd(b)) == Some(b);
  }

  /** The published advertisements are pairwise different, and so are the heads they gave. */
  lemma {:induction false} HeadsDistinct(k: Codec, ads: seq<Ad>, i: nat, j: nat)
    requires Sound(k) && Linked(k, ads) && i < j < |ads|
    ensures AdCid(k, ads[i]) != AdCid(k, ads[j])
    decreases |ads| - j
  {
    hide Sound, AdCid;
    if j + 1 < |ads| {
      HeadsDistinct(k, ads, i + 1, j + 1);
    }
    assert ads[i].previous == Some(AdCid(k, ads[i + 1]));
    assert ads[j].previous == if j + 1 < |ads| then Some(AdCid(k, ads[j + 1])) else None;
    AdCidInjective(k, ads[i], ads[j]);
  }

  // ----- runs through any number of clones

  /** The shared chain, and the unpublished advertisements of each clone. */
  datatype System = System(chain: Chain, temps: map<nat, map<nat, Ad>>)

  datatype Event =
    | CloneProvider(from: nat, to: nat)
    | CreateAd(who: nat, id: nat, ad: Ad)
    | AddChunkTo(who: nat, bytes: Bytes, id: nat)
    | PublishAd(who: nat, id: nat)
    | StoreBlock(cid: Cid, bytes: Bytes)   // other content of the same block store
    | Restart

  function TempsOf(sys: System, who: nat): map<nat, Ad> {
    if who in sys.temps then sys.temps[who] else map[]
  }

  /** The system after an event, and the advertisement it published, if any. */
  function Next(k: Codec, sys: System, ev: Event): (System, Option<Ad>) {
    match ev
    case CloneProvider(from, to) => (sys.(temps := sys.temps[to := TempsOf(sys, from)]), None)
    case CreateAd(who, id, ad) => (sys.(temps := sys.temps[who := Create(TempsOf(sys, who), id, ad)]), None)
    case AddChunkTo(who, bytes, id) =>
      var (chain, temp, r) := AddChunk(k, sys.chain, TempsOf(sys, who), bytes, id);
      (System(chain, sys.temps[who := temp]), None)
    case PublishAd(who, id) =>
      var (chain, temp, r) := Publish(k, sys.chain, TempsOf(sys, who), id);
      (System(chain, sys.temps[who := temp]), if r.Ok? then Some(r.value) else None)
    case StoreBlock(cid, bytes) => (sys.(chain := sys.chain.(blocks := sys.chain.blocks[cid := bytes])), None)
    case Restart => (System(sys.chain.(head := sys.chain.persisted), map[]), None)
  }

  /** What a run published, newest first: everything; what the head in memory should lead to, which is
      what was published since the head was last lost; and what the persisted head should lead to. */
  datatype Record = Record(published: seq<Ad>, current: seq<Ad>, durable: seq<Ad>)

  function Note(rec: Record, ev: Event, published: Option<Ad>): Record {
    match ev
    case PublishAd(_, _) =>
      (match published
       case Some(ad) => Record([ad] + rec.published, [ad] + rec.current, [ad] + rec.current)
       case None => rec.(current := []))
    case Restart => rec.(current := rec.durable)
    case _ => rec
  }

  /** The system after a run from an empty store, and what it published. */
  function Run(k: Codec, evs: seq<Event>): (System, Record) {
    if evs == [] then (System(Chain(map[], None, None), map[]), Record([], [], [])) else
    var (sys, rec) := Run(k, Front(evs));
    var (sys', published) := Next(k, sys, Last(evs));
    (sys', Note(rec, Last(evs), published))
  }

  /** Other content is stored so that an id names one content only. */
  ghost predicate HonestRun(k: Codec, evs: seq<Event>) {
    evs != [] ==>
      && HonestRun(k, Front(evs))
      && var blocks := Run(k, Front(evs)).0.chain.blocks;
         match Last(evs)
         case StoreBlock(cid, bytes) =>
           && (cid in blocks ==> blocks[cid] == bytes)
           && (forall b :: k.hash(b) == cid ==> b == bytes)
         case _ => true
  }

  ghost predicate TwoHeads(k: Codec, chain: Chain, rec: Record) {
    && Honest(k, chain.blocks)
    && Heads(k, chain.blocks, chain.head, rec.current)
    && Heads(k, chain.blocks, chain.persisted, rec.durable)
    && AllSigned(k, rec.published) && AllSigned(k, rec.current) && AllSigned(k, rec.durable)
  }

  lemma EmptyHeads(k: Codec)
    ensures TwoHeads(k, Chain(map[], None, None), Record([], [], []))
  {
  }

  lemma HeadsKept(k: Codec, chain: Chain, blocks': map<Cid, Bytes>, rec: Record)
    requires TwoHeads(k, chain, rec) && Kept(chain.blocks, blocks') && Honest(k, blocks')
    ensures TwoHeads(k, chain.(blocks := blocks'), rec)
  {
    WalksKept(k, chain.blocks, blocks', chain.head, rec.current);
    WalksKept(k, chain.blocks, blocks', chain.persisted, rec.durable);
  }

  lemma PublishKeepsHeads(k: Codec, sys: System, rec: Record, who: nat, id: nat)
    requires Sound(k) && TwoHeads(k, sys.chain, rec)
    ensures var (sys', published) := Next(k, sys, PublishAd(who, id));
            TwoHeads(k, sys'.chain, Note(rec, PublishAd(who, id), published))
  {
    hide AdCid;
    if Publishable(k, sys.chain, TempsOf(sys, who), id) {
      PublishHeads(k, sys.chain, TempsOf(sys, who), id, rec.current);
    }
  }

  /** After every run, through any clones, with failed publishes and restarts: walking from the head in
      memory visits exactly the advertisements published since that head was last lost, newest first,
      and stops, and the persisted head leads to the chain a restart resumes; every advertisement
      visited carries the signature given for it. */
  lemma {:induction false} RunKeepsHeads(k: Codec, evs: seq<Event>)
    requires Sound(k) && HonestRun(k, evs)
    ensures TwoHeads(k, Run(k, evs).0.chain, Run(k, evs).1)
  {
    EmptyHeads(k);
    hide Sound, AdCid, Heads;
    if evs != [] {
      RunKeepsHeads(k, Front(evs));
      var (sys, rec) := Run(k, Front(evs));
      match Last(evs)
      case CloneProvider(from, to) =>
      case CreateAd(who, id, ad) =>
      case AddChunkTo(who, bytes, id) =>
        AddChunkKeepsBlocks(k, sys.chain, TempsOf(sys, who), bytes, id);
        HeadsKept(k, sys.chain, AddChunk(k, sys.chain, TempsOf(sys, who), bytes, id).0.blocks, rec);
      case PublishAd(who, id) => PublishKeepsHeads(k, sys, rec, who, id);
      case StoreBlock(cid, bytes) => HeadsKept(k, sys.chain, sys.chain.blocks[cid := bytes], rec);
      case Restart =>
    }
  }

  /** Every publish of the run succeeds. */
  ghost predicate CleanRun(k: Codec, evs: seq<Event>) {
    evs != [] ==>
      && CleanRun(k, Front(evs))
      && (Last(evs).PublishAd? ==> Next(k, Run(k, Front(evs)).0, Last(evs)).1.Some?)
  }

  lemma {:induction false} NothingLost(k: Codec, evs: seq<Event>)
    requires CleanRun(k, evs)
    ensures var rec := Run(k, evs).1; rec.current == rec.published && rec.durable == rec.published
  {
    if evs != [] { NothingLost(k, Front(evs)); }
  }

  /** When every publish succeeds, both heads lead to everything published: the walk visits exactly the
      published advertisements, newest first, and a restart changes nothing. */
  lemma RunKeepsChain(k: Codec, evs: seq<Event>)
    requires Sound(k) && HonestRun(k, evs) && CleanRun(k, evs)
    ensures ChainInv(k, Run(k, evs).0.chain, Run(k, evs).1.published) && AllSigned(k, Run(k, evs).1.published)
  {
    RunKeepsHeads(k, evs);
    NothingLost(k, evs);
  }

  /** Exactly so: a publish that fails leaves the walk complete only while nothing is published. */
  lemma FailedPublishLoses(k: Codec, evs: seq<Event>)
    requires Sound(k) && HonestRun(k, evs) && evs != [] && CleanRun(k, Front(evs)) && Last(evs).PublishAd?
    ensures ChainInv(k, Run(k, evs).0.chain, Run(k, evs).1.published)
       <==> (Next(k, Run(k, Front(evs)).0, Last(evs)).1.Some? || Run(k, Front(evs)).1.published == [])
  {
    RunKeepsChain(k, Front(evs));
    var (sys, rec) := Run(k, Front(evs));
    hide AdCid;
    if Next(k, sys, Last(evs)).1.Some? {
      RunKeepsChain(k, evs);
    } else {
      assert Run(k, evs).0.chain == sys.chain.(head := None) && Run(k, evs).1.published == rec.published;
    }
  }
}
