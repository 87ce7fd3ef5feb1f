/**
 * The network service's bookkeeping (crates/ursa-network/src/service.rs): who waits for which block,
 * and which peers are asked for it given the cache summaries they sent. libp2p is the environment:
 * it hands out query ids, reports completions and connections, and delivers messages.
 */
module Network {
  import opened Prelude
  import opened DagGraph

  type Peer = nat
  type Waiter = nat
  type QueryId = nat

  /** The contents of a cache summary; `Filter` says what it reports. */
  type Summary = set<Cid>

  /** The summary filter: it may report what was never inserted. */
  type Filter = (Summary, Cid) -> bool

  ghost predicate NoFalseNegatives(filter: Filter) {
    forall s, c :: c in s ==> filter(s, c)
  }

  datatype Service = Service(
    queries: map<QueryId, Cid>,
    channels: map<Cid, seq<Waiter>>,
    peers: set<Peer>,
    cached: Summary,
    peerCached: map<Peer, Summary>)

  datatype Reply = Found | NotFound | NoPeers

  /** A service that starts, knowing its bootstrap peers. */
  function Initial(bootstraps: set<Peer>): Service {
    Service(map[], map[], bootstraps, {}, map[])
  }

  // ----- handlers

  function Waiting(svc: Service, c: Cid): seq<Waiter> {
    if c in svc.channels then svc.channels[c] else []
  }

  /** The peers asked for `c`: a peer with a summary is asked only if the summary reports the id. */
  function Providers(svc: Service, filter: Filter, c: Cid): set<Peer> {
    set p | p in svc.peers && (p in svc.peerCached ==> filter(svc.peerCached[p], c))
  }

  /** `GetBitswap`: a waiter is accepted, and a query issued, unless there are no peers at all. */
  function GetBitswap(svc: Service, c: Cid, w: Waiter, q: QueryId): (Service, seq<(Waiter, Reply)>) {
    if svc.peers == {} then (svc, [(w, NoPeers)]) else
    (svc.(channels := svc.channels[c := Waiting(svc, c) + [w]], queries := svc.queries[q := c]), [])
  }

  function Replies(ws: seq<Waiter>, reply: Reply): seq<(Waiter, Reply)> {
    seq(|ws|, i requires 0 <= i < |ws| => (ws[i], reply))
  }

  /** `BitswapEvent::Complete`: everyone waiting for the id is answered with the query's result. */
  function Complete(svc: Service, q: QueryId, ok: bool): (Service, seq<(Waiter, Reply)>) {
    if q !in svc.queries then (svc, []) else
    var c := svc.queries[q];
    (svc.(queries := svc.queries - {q}, channels := svc.channels - {c}),
     Replies(Waiting(svc, c), if ok then Found else NotFound))
  }

  /** `Put`: the id joins the cache summary, which is sent to every peer. */
  function Put(svc: Service, c: Cid): (Service, Summary) {
    (svc.(cached := svc.cached + {c}), svc.cached + {c})
  }

  function StoreSummary(svc: Service, p: Peer, s: Summary): Service {
    svc.(peerCached := svc.peerCached[p := s])
  }

  function Connected(svc: Service, p: Peer): Service {
    svc.(peers := svc.peers + {p})
  }

  function Closed(svc: Service, p: Peer, established: nat): Service {
    if established == 0 && p in svc.peers
    then svc.(peers := svc.peers - {p}, peerCached := svc.peerCached - {p})
    else svc
  }

  // ----- every waiter is answered once

  datatype Event =
    | Get(cid: Cid, waiter: Waiter, query: QueryId)
    | Completed(query: QueryId, ok: bool)
    | PutCid(cid: Cid)
    | Summarized(peer: Peer, summary: Summary)
    | Opened(peer: Peer)
    | Shut(peer: Peer, established: nat)

  /** What has happened: who was accepted for which id, the replies sent, and the results of
      completed queries. */
  datatype History = History(accepted: map<Waiter, Cid>, replies: seq<(Waiter, Reply)>, results: set<(Cid, Reply)>)

  function Next(svc: Service, ev: Event): (Service, seq<(Waiter, Reply)>) {
    match ev
    case Get(c, w, q) => GetBitswap(svc, c, w, q)
    case Completed(q, ok) => Complete(svc, q, ok)
    case PutCid(c) => (Put(svc, c).0, [])
    case Summarized(p, s) => (StoreSummary(svc, p, s), [])
    case Opened(p) => (Connected(svc, p), [])
    case Shut(p, n) => (Closed(svc, p, n), [])
  }

  function Record(h: History, svc: Service, ev: Event): History {
    var replies := h.replies + Next(svc, ev).1;
    match ev
    case Get(c, w, q) =>
      if svc.peers == {} then h.(replies := replies) else h.(accepted := h.accepted[w := c])
    case Completed(q, ok) =>
      if q in svc.queries then h.(replies := replies,
        results := h.results + {(svc.queries[q], if ok then Found else NotFound)})
      else h
    case _ => h
  }

  /** The environment hands out a new query id and a new waiter with each request. */
  predicate Fresh(h: History, svc: Service, ev: Event) {
    ev.Get? ==> ev.query !in svc.queries && ev.waiter !in h.accepted && forall r :: r in h.replies ==> r.0 != ev.waiter
  }

  /** Waiters are pending under an id that has an outstanding query, each once. */
  ghost predicate PendingInv(svc: Service, h: History) {
    && (forall c :: c in svc.channels ==>
          Distinct(svc.channels[c]) && exists q :: q in svc.queries && svc.queries[q] == c)
    && (forall c, w :: c in svc.channels && w in svc.channels[c] ==> w in h.accepted && h.accepted[w] == c)
  }

  /** Each waiter was answered at most once, and not while pending; an accepted one with the result
      of a completed query for its own id, and any other because there were no peers. */
  ghost predicate AnsweredInv(svc: Service, h: History) {
    && (forall i, j :: 0 <= i < j < |h.replies| ==> h.replies[i].0 != h.replies[j].0)
    && (forall r :: r in h.replies ==>
          && (forall c :: c in svc.channels ==> r.0 !in svc.channels[c])
          && (if r.0 in h.accepted then (h.accepted[r.0], r.1) in h.results else r.1 == NoPeers))
    && (forall x :: x in h.results ==> x.1 != NoPeers)
  }

  /** Nobody accepted is forgotten. */
  ghost predicate Accounted(svc: Service, h: History) {
    forall w :: w in h.accepted ==> w in Waiting(svc, h.accepted[w]) || exists r :: r in h.replies && r.0 == w
  }

  ghost predicate WaiterInv(svc: Service, h: History) {
    PendingInv(svc, h) && AnsweredInv(svc, h) && Accounted(svc, h)
  }

  lemma GetPending(svc: Service, h: History, ev: Event)
    requires PendingInv(svc, h) && ev.Get? && Fresh(h, svc, ev)
    ensures PendingInv(Next(svc, ev).0, Record(h, svc, ev))
  {
    if svc.peers != {} {
      var (svc', h') := (Next(svc, ev).0, Record(h, svc, ev));
      forall c | c in svc'.channels
        ensures Distinct(svc'.channels[c]) && exists q :: q in svc'.queries && svc'.queries[q] == c
      {
        if c == ev.cid {
          assert ev.query in svc'.queries && svc'.queries[ev.query] == c;
          assert ev.waiter !in Waiting(svc, c);
        } else {
          var q :| q in svc.queries && svc.queries[q] == c;
          assert q in svc'.queries && svc'.queries[q] == c;
        }
      }
    }
  }

  lemma GetAnswered(svc: Service, h: History, ev: Event)
    requires PendingInv(svc, h) && AnsweredInv(svc, h) && ev.Get? && Fresh(h, svc, ev)
    ensures AnsweredInv(Next(svc, ev).0, Record(h, svc, ev))
  {
    hide Distinct;
    if svc.peers != {} {
      assert forall c :: c in Next(svc, ev).0.channels ==>
        forall x :: x in Next(svc, ev).0.channels[c] ==> x == ev.waiter || x in Waiting(svc, c);
    }
  }

  lemma GetAccounted(svc: Service, h: History, ev: Event)
    requires Accounted(svc, h) && ev.Get? && Fresh(h, svc, ev)
    ensures Accounted(Next(svc, ev).0, Record(h, svc, ev))
  {
    var (svc', h') := (Next(svc, ev).0, Record(h, svc, ev));
    forall w | w in h'.accepted ensures w in Waiting(svc', h'.accepted[w]) || exists r :: r in h'.replies && r.0 == w {
      if w in h.accepted && w !in Waiting(svc, h.accepted[w]) {
        var r :| r in h.replies && r.0 == w;
        assert r in h'.replies;
      }
    }
  }

  lemma CompletedPending(svc: Service, h: History, ev: Event)
    requires PendingInv(svc, h) && ev.Completed?
    ensures PendingInv(Next(svc, ev).0, Record(h, svc, ev))
  {
    if ev.query in svc.queries {
      var svc' := Next(svc, ev).0;
      hide Distinct;
      forall c | c in svc'.channels ensures exists q :: q in svc'.queries && svc'.queries[q] == c {
        var q :| q in svc.queries && svc.queries[q] == c;
        assert q in svc'.queries;
      }
    }
  }

  lemma CompletedAnswered(svc: Service, h: History, ev: Event)
    requires PendingInv(svc, h) && AnsweredInv(svc, h) && ev.Completed? && ev.query in svc.queries
    ensures AnsweredInv(Next(svc, ev).0, Record(h, svc, ev))
  {
    var (svc', h') := (Next(svc, ev).0, Record(h, svc, ev));
    var ws := Waiting(svc, svc.queries[ev.query]);
    var sent, now := h.replies, Next(svc, ev).1;
    assert forall i :: 0 <= i < |now| ==> now[i].0 == ws[i] && ws[i] in ws;
    forall i, j | 0 <= i < j < |h'.replies| ensures h'.replies[i].0 != h'.replies[j].0 {
      if i < |sent| {
        assert h'.replies[i] in sent;
      }
    }
    forall r | r in h'.replies
      ensures forall c :: c in svc'.channels ==> r.0 !in svc'.channels[c]
      ensures if r.0 in h'.accepted then (h'.accepted[r.0], r.1) in h'.results else r.1 == NoPeers
    {
      if r !in sent {
        var i :| 0 <= i < |now| && now[i] == r;
        assert h.accepted[r.0] == svc.queries[ev.query];
      } else {
        assert forall c :: c in svc'.channels ==> svc'.channels[c] == svc.channels[c];
      }
    }
  }

  lemma CompletedAccounted(svc: Service, h: History, ev: Event)
    requires Accounted(svc, h) && ev.Completed? && ev.query in svc.queries
    ensures Accounted(Next(svc, ev).0, Record(h, svc, ev))
  {
    var (svc', h') := (Next(svc, ev).0, Record(h, svc, ev));
    var c := svc.queries[ev.query];
    var ws, now := Waiting(svc, c), Next(svc, ev).1;
    forall w | w in h'.accepted ensures w in Waiting(svc', h'.accepted[w]) || exists r :: r in h'.replies && r.0 == w {
      if w !in Waiting(svc, h.accepted[w]) {
        var r :| r in h.replies && r.0 == w;
        assert r in h'.replies;
      } else if h.accepted[w] == c {
        var i :| 0 <= i < |ws| && ws[i] == w;
        assert now[i] in now && now[i] in h'.replies && now[i].0 == w;
      }
    }
  }

  lemma NextKeepsWaiters(svc: Service, h: History, ev: Event)
    requires WaiterInv(svc, h) && Fresh(h, svc, ev)
    ensures WaiterInv(Next(svc, ev).0, Record(h, svc, ev))
  {
    match ev
    case Get(_, _, _) =>
      GetPending(svc, h, ev);
      GetAnswered(svc, h, ev);
      GetAccounted(svc, h, ev);
    case Completed(q, _) =>
      CompletedPending(svc, h, ev);
      if q in svc.queries {
        CompletedAnswered(svc, h, ev);
        CompletedAccounted(svc, h, ev);
      }
    case _ =>
  }

  // ----- runs

  /** The service after a run, and what happened. */
  function Run(bootstraps: set<Peer>, evs: seq<Event>): (Service, History) {
    if evs == [] then (Initial(bootstraps), History(map[], [], {})) else
    var (svc, h) := Run(bootstraps, Front(evs));
    (Next(svc, Last(evs)).0, Record(h, svc, Last(evs)))
  }

  ghost predicate FreshRun(bootstraps: set<Peer>, evs: seq<Event>) {
    evs != [] ==>
      FreshRun(bootstraps, Front(evs)) && var (svc, h) := Run(bootstraps, Front(evs)); Fresh(h, svc, Last(evs))
  }

  lemma {:induction false} RunKeepsWaiters(bootstraps: set<Peer>, evs: seq<Event>)
    requires FreshRun(bootstraps, evs)
    ensures WaiterInv(Run(bootstraps, evs).0, Run(bootstraps, evs).1)
  {
    if evs != [] {
      RunKeepsWaiters(bootstraps, Front(evs));
      hide WaiterInv, Fresh, Next, Record;
      var (svc, h) := Run(bootstraps, Front(evs));
      NextKeepsWaiters(svc, h, Last(evs));
    }
  }

  /** How often `w` was answered. */
  function Answers(replies: seq<(Waiter, Reply)>, w: Waiter): nat {
    if replies == [] then 0 else Answers(replies[1..], w) + if replies[0].0 == w then 1 else 0
  }

  lemma {:induction false} AnsweredOnce(replies: seq<(Waiter, Reply)>, w: Waiter)
    requires forall i, j :: 0 <= i < j < |replies| ==> replies[i].0 != replies[j].0
    ensures Answers(replies, w) == if exists r :: r in replies && r.0 == w then 1 else 0
    decreases |replies|
  {
    if replies != [] {
      AnsweredOnce(replies[1..], w);
      assert replies == [replies[0]] + replies[1..];
      if r :| r in replies[1..] && r.0 == w { assert r in replies; }
    }
  }

  /** Every accepted waiter is either still pending, unanswered, under its id, for which a query is
      outstanding, or was answered exactly once, with the result of a completed query for its id. */
  lemma EveryWaiterSettled(bootstraps: set<Peer>, evs: seq<Event>, w: Waiter)
    requires FreshRun(bootstraps, evs) && w in Run(bootstraps, evs).1.accepted
    ensures var (svc, h) := Run(bootstraps, evs);
            var c := h.accepted[w];
            || (w in Waiting(svc, c) && Answers(h.replies, w) == 0
                && exists q :: q in svc.queries && svc.queries[q] == c)
            || (w !in Waiting(svc, c) && Answers(h.replies, w) == 1
                && exists r :: (w, r) in h.replies && (c, r) in h.results && r != NoPeers)
  {
    RunKeepsWaiters(bootstraps, evs);
    var (svc, h) := Run(bootstraps, evs);
    AnsweredOnce(h.replies, w);
    if r :| r in h.replies && r.0 == w {
      assert r == (w, r.1);
    }
  }

  /** When no query is outstanding, nobody waits. */
  lemma NobodyWaits(bootstraps: set<Peer>, evs: seq<Event>)
    requires FreshRun(bootstraps, evs) && Run(bootstraps, evs).0.queries == map[]
    ensures Run(bootstraps, evs).0.channels == map[]
    ensures forall w :: w in Run(bootstraps, evs).1.accepted ==> Answers(Run(bootstraps, evs).1.replies, w) == 1
  {
    RunKeepsWaiters(bootstraps, evs);
    forall w | w in Run(bootstraps, evs).1.accepted
      ensures Answers(Run(bootstraps, evs).1.replies, w) == 1
    {
      EveryWaiterSettled(bootstraps, evs, w);
    }
  }
}
