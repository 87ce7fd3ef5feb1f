/**
 * What is published, over whole runs of the index provider
 * (crates/ursa-index-provider/src/provider.rs:70-158): drafts, read off the log of events clone by
 * clone, and the advertisements and chunk lists in the block store that they become.
 */
module AdContent {
  import opened Prelude
  import opened DagGraph
  import opened AdChain

  /** An advertisement in the making: its body, and its chunks with the newest first. */
  datatype Draft = Draft(body: AdBody, chunks: seq<seq<Bytes>>)

  /** The draft a clone has under an id after these events. */
  ghost function DraftOf(k: Codec, evs: seq<Event>, who: nat, id: nat): Option<Draft> {
    if evs == [] then None else
    var before := DraftOf(k, Front(evs), who, id);
    match Last(evs)
    case CloneProvider(from, to) => if to == who then DraftOf(k, Front(evs), from, id) else before
    case CreateAd(w, i, ad) => if (w, i) == (who, id) then Some(Draft(ad.body, [])) else before
    case AddChunkTo(w, bytes, i) =>
      if (w, i) == (who, id) && before.Some? && k.decodeEntries(bytes).Some?
      then Some(Draft(before.value.body, [k.decodeEntries(bytes).value] + before.value.chunks))
      else before
    case PublishAd(w, i) => if (w, i) == (who, id) then None else before
    case StoreBlock(_, _) => before
    case Restart => None
  }

  /** The drafts that were published, newest first. */
  ghost function PublishedDrafts(k: Codec, evs: seq<Event>): seq<Draft> {
    if evs == [] then [] else
    var before := PublishedDrafts(k, Front(evs));
    match Last(evs)
    case PublishAd(who, id) =>
      (match (DraftOf(k, Front(evs), who, id), Next(k, Run(k, Front(evs)).0, Last(evs)).1)
       case (Some(draft), Some(_)) => [draft] + before
       case _ => before)
    case _ => before
  }

  /** `ad` holds what `draft` says: its body, and the chunk list that its entries lead to. */
  ghost predicate Carries(k: Codec, blocks: map<Cid, Bytes>, ad: Ad, draft: Draft) {
    ad.body == draft.body && ChunkWalks(k, blocks, ad.entries, draft.chunks)
  }

  ghost predicate Drafted(k: Codec, blocks: map<Cid, Bytes>, ad: Option<Ad>, draft: Option<Draft>) {
    && (ad.Some? <==> draft.Some?)
    && (ad.Some? ==> Carries(k, blocks, ad.value, draft.value))
  }

  function AdAt(sys: System, who: nat, id: nat): Option<Ad> {
    if id in TempsOf(sys, who) then Some(TempsOf(sys, who)[id]) else None
  }

  lemma DraftedKept(k: Codec, blocks: map<Cid, Bytes>, blocks': map<Cid, Bytes>, ad: Option<Ad>, draft: Option<Draft>)
    requires Drafted(k, blocks, ad, draft) && Kept(blocks, blocks')
    ensures Drafted(k, blocks', ad, draft)
  {
    if ad.Some? { ChunkWalksKept(k, blocks, blocks', ad.value.entries, draft.value.chunks); }
  }

  /** An event keeps what is stored. */
  lemma NextKeepsBlocks(k: Codec, evs: seq<Event>)
    requires Sound(k) && HonestRun(k, evs) && evs != []
    ensures Kept(Run(k, Front(evs)).0.chain.blocks, Run(k, evs).0.chain.blocks)
    ensures Honest(k, Run(k, Front(evs)).0.chain.blocks)
  {
    RunKeepsHeads(k, Front(evs));
    hide Heads;
    var sys := Run(k, Front(evs)).0;
    match Last(evs)
    case AddChunkTo(who, bytes, id) => AddChunkKeepsBlocks(k, sys.chain, TempsOf(sys, who), bytes, id);
    case PublishAd(who, id) =>
      var r := Publish(k, sys.chain, TempsOf(sys, who), id).2;
      if r.Ok? { PutKeeps(k, sys.chain.blocks, k.encodeAd(r.value)); }
    case _ =>
  }

  /** What adding a chunk does to the advertisement and to its draft. */
  lemma ChunkDrafted(k: Codec, sys: System, who: nat, bytes: Bytes, id: nat, draft: Option<Draft>)
    requires Sound(k) && Honest(k, sys.chain.blocks) && Drafted(k, sys.chain.blocks, AdAt(sys, who, id), draft)
    requires draft.Some? && k.decodeEntries(bytes).Some?
    ensures var sys' := Next(k, sys, AddChunkTo(who, bytes, id)).0;
            Drafted(k, sys'.chain.blocks, AdAt(sys', who, id),
                    Some(Draft(draft.value.body, [k.decodeEntries(bytes).value] + draft.value.chunks)))
  {
    var (temp, entries) := (TempsOf(sys, who), k.decodeEntries(bytes).value);
    var block := k.encodeChunk(Chunk(entries, temp[id].entries));
    PutKeeps(k, sys.chain.blocks, block);
    var blocks' := sys.chain.blocks[k.hash(block) := block];
    ChunkWalksKept(k, sys.chain.blocks, blocks', temp[id].entries, draft.value.chunks);
    assert ([entries] + draft.value.chunks)[1..] == draft.value.chunks;
  }

  /** After every run, each clone has exactly the unpublished advertisements that its log of events
      makes it have, each with its body and with a chunk list that holds what was added, in order. */
  lemma {:induction false} DraftsExactly(k: Codec, evs: seq<Event>, who: nat, id: nat)
    requires Sound(k) && HonestRun(k, evs)
    ensures Drafted(k, Run(k, evs).0.chain.blocks, AdAt(Run(k, evs).0, who, id), DraftOf(k, evs, who, id))
  {
    if evs != [] {
      var (sys, sys') := (Run(k, Front(evs)).0, Run(k, evs).0);
      DraftsExactly(k, Front(evs), who, id);
      NextKeepsBlocks(k, evs);
      hide Sound, Carries;
      DraftedKept(k, sys.chain.blocks, sys'.chain.blocks, AdAt(sys, who, id), DraftOf(k, Front(evs), who, id));
      match Last(evs)
      case CloneProvider(from, to) => DraftsExactly(k, Front(evs), from, id);
      case CreateAd(w, i, ad) => Created(k, sys'.chain.blocks, ad);
      case AddChunkTo(w, bytes, i) =>
        if (w, i) == (who, id) && DraftOf(k, Front(evs), who, id).Some? && k.decodeEntries(bytes).Some? {
          ChunkDrafted(k, sys, who, bytes, id, DraftOf(k, Front(evs), who, id));
        }
      case _ =>
    }
  }

  lemma Created(k: Codec, blocks: map<Cid, Bytes>, ad: Ad)
    ensures Carries(k, blocks, ad.(entries := None), Draft(ad.body, []))
  {
  }

  ghost predicate AllCarry(k: Codec, blocks: map<Cid, Bytes>, ads: seq<Ad>, drafts: seq<Draft>) {
    |ads| == |drafts| && forall i :: 0 <= i < |ads| ==> Carries(k, blocks, ads[i], drafts[i])
  }

  lemma AllCarryKept(k: Codec, blocks: map<Cid, Bytes>, blocks': map<Cid, Bytes>, ads: seq<Ad>, drafts: seq<Draft>)
    requires AllCarry(k, blocks, ads, drafts) && Kept(blocks, blocks')
    ensures AllCarry(k, blocks', ads, drafts)
  {
    forall i | 0 <= i < |ads| ensures Carries(k, blocks', ads[i], drafts[i]) {
      ChunkWalksKept(k, blocks, blocks', ads[i].entries, drafts[i].chunks);
    }
  }

  lemma PublishedCarries(k: Codec, evs: seq<Event>)
    requires Sound(k) && HonestRun(k, evs) && evs != [] && Last(evs).PublishAd?
    ensures var published := Next(k, Run(k, Front(evs)).0, Last(evs)).1;
            var draft := DraftOf(k, Front(evs), Last(evs).who, Last(evs).id);
            published.Some? ==> draft.Some? && Carries(k, Run(k, evs).0.chain.blocks, published.value, draft.value)
  {
    var (who, id) := (Last(evs).who, Last(evs).id);
    DraftsExactly(k, Front(evs), who, id);
    NextKeepsBlocks(k, evs);
    var (sys, sys') := (Run(k, Front(evs)).0, Run(k, evs).0);
    DraftedKept(k, sys.chain.blocks, sys'.chain.blocks, AdAt(sys, who, id), DraftOf(k, Front(evs), who, id));
  }

  /** After every run, the published advertisements are the published drafts: each still has the body
      and, in the block store, the chunk list that its clone had put together, whatever was created,
      published, stored or lost since. */
  lemma {:induction false} RunKeepsContent(k: Codec, evs: seq<Event>)
    requires Sound(k) && HonestRun(k, evs)
    ensures AllCarry(k, Run(k, evs).0.chain.blocks, Run(k, evs).1.published, PublishedDrafts(k, evs))
  {
    if evs != [] {
      RunKeepsContent(k, Front(evs));
      NextKeepsBlocks(k, evs);
      var (sys, rec) := Run(k, Front(evs));
      AllCarryKept(k, sys.chain.blocks, Run(k, evs).0.chain.blocks, rec.published, PublishedDrafts(k, Front(evs)));
      if Last(evs).PublishAd? { PublishedCarries(k, evs); }
      hide Sound, Carries, HonestRun, Kept, DraftOf;
    }
  }
}
