/**
 * The network service as an object whose handlers update its tables
 * (crates/ursa-network/src/service.rs:447-481, :603-604, :709-727 and :735-802).
 */
module UrsaService {
  import opened Prelude
  import opened DagGraph
  import N = Network
  import L = NetworkLog

  class UrsaService {
    var bitswapQueries: map<N.QueryId, Cid>
    var responseChannels: map<Cid, seq<N.Waiter>>
    var peers: set<N.Peer>
    var cachedContent: N.Summary
    var peerCachedContent: map<N.Peer, N.Summary>

    ghost function Abs(): N.Service
      reads this
    {
      N.Service(bitswapQueries, responseChannels, peers, cachedContent, peerCachedContent)
    }

    constructor (bootstraps: set<N.Peer>)
      ensures Abs() == N.Initial(bootstraps)
    {
      bitswapQueries, responseChannels, peers, cachedContent, peerCachedContent := map[], map[], bootstraps, {}, map[];
    }

    /** `query` is the id the swarm hands out for the block request. */
    method GetBitswap(filter: N.Filter, cid: Cid, sender: N.Waiter, query: N.QueryId)
      returns (replies: seq<(N.Waiter, N.Reply)>, asked: set<N.Peer>)
      modifies this
      ensures (Abs(), replies) == N.GetBitswap(old(Abs()), cid, sender, query)
      ensures asked == N.Providers(old(Abs()), filter, cid)
    {
      if peers == {} { return [(sender, N.NoPeers)], {}; }
      if cid in responseChannels {
        responseChannels := responseChannels[cid := responseChannels[cid] + [sender]];
      } else {
        responseChannels := responseChannels[cid := [sender]];
        assert N.Waiting(old(Abs()), cid) + [sender] == [sender];
      }
      asked := set p | p in peers && (p in peerCachedContent ==> filter(peerCachedContent[p], cid));
      bitswapQueries := bitswapQueries[query := cid];
      replies := [];
    }

    method BitswapComplete(query: N.QueryId, ok: bool) returns (replies: seq<(N.Waiter, N.Reply)>)
      modifies this
      ensures (Abs(), replies) == N.Complete(old(Abs()), query, ok)
    {
      replies := [];
      if query !in bitswapQueries { return; }
      var cid := bitswapQueries[query];
      bitswapQueries := bitswapQueries - {query};
      if cid in responseChannels {
        var chans := responseChannels[cid];
        responseChannels := responseChannels - {cid};
        for i := 0 to |chans|
          invariant replies == N.Replies(chans[..i], if ok then N.Found else N.NotFound)
        {
          replies := replies + [(chans[i], if ok then N.Found else N.NotFound)];
        }
        assert chans[..|chans|] == chans;
      } else {
        assert responseChannels - {cid} == responseChannels;
        assert N.Replies([], if ok then N.Found else N.NotFound) == [];
      }
    }

    method Put(cid: Cid) returns (summary: N.Summary, to: set<N.Peer>)
      modifies this
      ensures (Abs(), summary) == N.Put(old(Abs()), cid) && to == peers
    {
      cachedContent := cachedContent + {cid};
      return cachedContent, peers;
    }

    method StoreSummary(peer: N.Peer, summary: N.Summary)
      modifies this
      ensures Abs() == N.StoreSummary(old(Abs()), peer, summary)
    {
      peerCachedContent := peerCachedContent[peer := summary];
    }

    method ConnectionEstablished(peer: N.Peer)
      modifies this
      ensures Abs() == N.Connected(old(Abs()), peer)
    {
      peers := peers + {peer};
    }

    method ConnectionClosed(peer: N.Peer, established: nat)
      modifies this
      ensures Abs() == N.Closed(old(Abs()), peer, established)
    {
      if established == 0 && peer in peers {
        peers := peers - {peer};
        peerCachedContent := peerCachedContent - {peer};
      }
    }

    /** One turn of the service loop: the handler for a command or a swarm event. */
    method Handle(filter: N.Filter, ev: N.Event) returns (replies: seq<(N.Waiter, N.Reply)>, asked: set<N.Peer>)
      modifies this
      ensures (Abs(), replies) == N.Next(old(Abs()), ev)
      ensures asked == if ev.Get? then N.Providers(old(Abs()), filter, ev.cid) else {}
    {
      replies, asked := [], {};
      match ev {
        case Get(c, w, q) => replies, asked := GetBitswap(filter, c, w, q);
        case Completed(q, ok) => replies := BitswapComplete(q, ok);
        case PutCid(c) => var _, _ := Put(c);
        case Summarized(p, summary) => StoreSummary(p, summary);
        case Opened(p) => ConnectionEstablished(p);
        case Shut(p, established) => ConnectionClosed(p, established);
      }
    }
  }

  /** The service loop from the start. Its tables, its replies and the peers asked at each event are
      those its log of events determines, and every waiter it accepts is settled. */
  method Serve(bootstraps: set<N.Peer>, filter: N.Filter, evs: seq<N.Event>)
    returns (svc: UrsaService, replies: seq<(N.Waiter, N.Reply)>, asked: seq<set<N.Peer>>)
    ensures fresh(svc) && svc.Abs() == N.Run(bootstraps, evs).0 && replies == N.Run(bootstraps, evs).1.replies
    ensures forall p :: p in svc.peers <==> L.Known(bootstraps, evs, p)
    ensures forall w: N.Waiter, r :: (w, r) in replies <==> L.Answered(bootstraps, evs, w, r)
    ensures |asked| == |evs|
    ensures forall i, p :: 0 <= i < |evs| ==>
              (p in asked[i] <==> evs[i].Get? && L.Askable(bootstraps, evs[..i], filter, evs[i].cid, p))
    ensures N.FreshRun(bootstraps, evs) ==> N.WaiterInv(svc.Abs(), N.Run(bootstraps, evs).1)
    ensures N.FreshRun(bootstraps, evs) && svc.bitswapQueries == map[] ==>
              svc.responseChannels == map[]
              && forall w :: w in N.Run(bootstraps, evs).1.accepted ==> N.Answers(replies, w) == 1
  {
    hide N.Next, N.WaiterInv, N.FreshRun, L.Known, L.Answered, L.Askable;
    svc := new UrsaService(bootstraps);
    replies, asked := [], [];
    for i := 0 to |evs|
      invariant fresh(svc) && |asked| == i
      invariant svc.Abs() == N.Run(bootstraps, evs[..i]).0 && replies == N.Run(bootstraps, evs[..i]).1.replies
      invariant forall j, p :: 0 <= j < i ==>
                  (p in asked[j] <==> evs[j].Get? && L.Askable(bootstraps, evs[..j], filter, evs[j].cid, p))
    {
      assert Front(evs[..i + 1]) == evs[..i] && Last(evs[..i + 1]) == evs[i];
      L.RepliesGrow(N.Run(bootstraps, evs[..i]).1, svc.Abs(), evs[i]);
      if evs[i].Get? { WhoIsAsked(bootstraps, evs[..i], filter, evs[i].cid); }
      var more, now := svc.Handle(filter, evs[i]);
      replies, asked := replies + more, asked + [now];
    }
    assert evs[..|evs|] == evs;
    forall p ensures p in svc.peers <==> L.Known(bootstraps, evs, p) { L.PeersExactly(bootstraps, evs, p); }
    forall w: N.Waiter, r ensures (w, r) in replies <==> L.Answered(bootstraps, evs, w, r) {
      L.RepliesExactly(bootstraps, evs, w, r);
    }
    if N.FreshRun(bootstraps, evs) {
      N.RunKeepsWaiters(bootstraps, evs);
      if svc.bitswapQueries == map[] { N.NobodyWaits(bootstraps, evs); }
    }
  }

  lemma WhoIsAsked(bootstraps: set<N.Peer>, evs: seq<N.Event>, filter: N.Filter, c: Cid)
    ensures forall p :: p in N.Providers(N.Run(bootstraps, evs).0, filter, c) <==>
                        L.Askable(bootstraps, evs, filter, c, p)
  {
    forall p ensures p in N.Providers(N.Run(bootstraps, evs).0, filter, c) <==>
                     L.Askable(bootstraps, evs, filter, c, p)
    {
      L.AskedFromLog(bootstraps, evs, filter, c, p);
    }
  }
}
