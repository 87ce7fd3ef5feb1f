/**
 * What the tables of the network service hold, read off the log of its events alone: who is a peer,
 * whose summary is held, which queries are outstanding, who waits for what and who was answered how
 * (crates/ursa-network/src/service.rs:447-481, :603-604, :709-727 and :735-797).
 */
module NetworkLog {
  import opened Prelude
  import opened DagGraph
  import opened Network

  /** A property of an event and of the events before it. */
  type Test = (seq<Event>, Event) -> bool

  /** Some event passed `start`, and none after it passed `end`. */
  ghost predicate Since(evs: seq<Event>, start: Test, end: Test) {
    exists i :: 0 <= i < |evs| && start(evs[..i], evs[i]) && NoneAfter(evs, i, end)
  }

  ghost predicate NoneAfter(evs: seq<Event>, i: int, end: Test) {
    forall j :: 0 <= i < j < |evs| ==> !end(evs[..j], evs[j])
  }

  lemma SinceLast(evs: seq<Event>, start: Test, end: Test)
    requires evs != []
    ensures Since(evs, start, end) <==>
              start(Front(evs), Last(evs)) || (Since(Front(evs), start, end) && !end(Front(evs), Last(evs)))
  {
    var (front, n) := (Front(evs), |evs| - 1);
    assert forall j :: 0 <= j < n ==> front[..j] == evs[..j] && front[j] == evs[j];
    assert evs[..n] == front;
    if start(front, Last(evs)) {
      assert NoneAfter(evs, n, end);
    }
    if Since(front, start, end) && !end(front, Last(evs)) {
      var i :| 0 <= i < |front| && start(front[..i], front[i]) && NoneAfter(front, i, end);
      assert start(evs[..i], evs[i]) && NoneAfter(evs, i, end);
    }
    if Since(evs, start, end) && !start(front, Last(evs)) {
      var i :| 0 <= i < |evs| && start(evs[..i], evs[i]) && NoneAfter(evs, i, end);
      assert start(front[..i], front[i]) && NoneAfter(front, i, end);
      assert !end(evs[..n], evs[n]);
    }
  }

  lemma NeverYet(start: Test, end: Test)
    ensures !Since([], start, end)
  {
  }

  // ----- peers

  ghost function Opens(p: Peer): Test {
    (before, ev) => ev == Opened(p)
  }

  /** The last connection of `p` closes. */
  ghost function Leaves(p: Peer): Test {
    (before, ev) => ev == Shut(p, 0)
  }

  /** `p` connected and did not leave since, or it is a bootstrap peer that never left. */
  ghost predicate Known(bootstraps: set<Peer>, evs: seq<Event>, p: Peer) {
    Since(evs, Opens(p), Leaves(p)) || (p in bootstraps && Shut(p, 0) !in evs)
  }

  lemma {:induction false} PeersExactly(bootstraps: set<Peer>, evs: seq<Event>, p: Peer)
    ensures p in Run(bootstraps, evs).0.peers <==> Known(bootstraps, evs, p)
  {
    hide Since;
    NeverYet(Opens(p), Leaves(p));
    if evs != [] {
      PeersExactly(bootstraps, Front(evs), p);
      SinceLast(evs, Opens(p), Leaves(p));
      assert evs == Front(evs) + [Last(evs)];
    }
  }

  /** The connections of `p` that are open. */
  ghost function OpenCount(evs: seq<Event>, p: Peer): int {
    if evs == [] then 0 else
    OpenCount(Front(evs), p) +
    match Last(evs)
    case Opened(x) => if x == p then 1 else 0
    case Shut(x, _) => if x == p then -1 else 0
    case _ => 0
  }

  /** What the swarm reports: a connection that closes was open, together with so many others. */
  ghost predicate Counted(evs: seq<Event>) {
    evs != [] ==>
      && Counted(Front(evs))
      && (Last(evs).Shut? ==> Last(evs).established == OpenCount(Front(evs), Last(evs).peer) - 1)
  }

  /** So the peers are those with an open connection, and the bootstrap peers that never left. */
  lemma {:induction false} PeersAreConnected(bootstraps: set<Peer>, evs: seq<Event>, p: Peer)
    requires Counted(evs)
    ensures OpenCount(evs, p) >= 0
    ensures p in Run(bootstraps, evs).0.peers <==> OpenCount(evs, p) > 0 || (p in bootstraps && Shut(p, 0) !in evs)
  {
    if evs != [] {
      PeersAreConnected(bootstraps, Front(evs), p);
      assert evs == Front(evs) + [Last(evs)];
    }
  }

  // ----- summaries

  ghost function Summarizes(p: Peer, s: Summary): Test {
    (before, ev) => ev == Summarized(p, s)
  }

  /** The summary of `p` is replaced, or forgotten because `p` leaves. */
  ghost function Forgets(bootstraps: set<Peer>, p: Peer): Test {
    (before: seq<Event>, ev: Event) =>
      (ev.Summarized? && ev.peer == p) || (ev == Shut(p, 0) && Known(bootstraps, before, p))
  }

  /** `s` is the last summary delivered by `p`, and `p` did not leave since. */
  ghost predicate Held(bootstraps: set<Peer>, evs: seq<Event>, p: Peer, s: Summary) {
    Since(evs, Summarizes(p, s), Forgets(bootstraps, p))
  }

  ghost predicate Holds(svc: Service, p: Peer, s: Summary) {
    p in svc.peerCached && svc.peerCached[p] == s
  }

  lemma {:induction false} SummariesExactly(bootstraps: set<Peer>, evs: seq<Event>, p: Peer, s: Summary)
    ensures Holds(Run(bootstraps, evs).0, p, s) <==> Held(bootstraps, evs, p, s)
  {
    hide Since, Known;
    NeverYet(Summarizes(p, s), Forgets(bootstraps, p));
    if evs != [] {
      SummariesExactly(bootstraps, Front(evs), p, s);
      PeersExactly(bootstraps, Front(evs), p);
      SinceLast(evs, Summarizes(p, s), Forgets(bootstraps, p));
    }
  }

  /** `p` is a peer, and no summary of it is held or the filter says that it reports the id. */
  ghost predicate Askable(bootstraps: set<Peer>, evs: seq<Event>, filter: Filter, c: Cid, p: Peer) {
    Known(bootstraps, evs, p) && forall s :: Held(bootstraps, evs, p, s) ==> filter(s, c)
  }

  /** Who is asked for a block, with any filter, false positives included. */
  lemma AskedFromLog(bootstraps: set<Peer>, evs: seq<Event>, filter: Filter, c: Cid, p: Peer)
    ensures p in Providers(Run(bootstraps, evs).0, filter, c) <==> Askable(bootstraps, evs, filter, c, p)
  {
    hide Since, Known, Held, Run;
    var svc := Run(bootstraps, evs).0;
    PeersExactly(bootstraps, evs, p);
    forall s ensures Holds(svc, p, s) <==> Held(bootstraps, evs, p, s) { SummariesExactly(bootstraps, evs, p, s); }
    if p in svc.peerCached { assert Holds(svc, p, svc.peerCached[p]); }
  }

  /** The node's own summary: everything put. */
  lemma {:induction false} CachedExactly(bootstraps: set<Peer>, evs: seq<Event>, c: Cid)
    ensures c in Run(bootstraps, evs).0.cached <==> PutCid(c) in evs
  {
    if evs != [] {
      CachedExactly(bootstraps, Front(evs), c);
      assert evs == Front(evs) + [Last(evs)];
    }
  }

  // ----- queries and waiters

  /** Somebody is there to be asked. */
  ghost predicate AnyKnown(bootstraps: set<Peer>, evs: seq<Event>) {
    exists p :: Known(bootstraps, evs, p)
  }

  lemma SomePeers(bootstraps: set<Peer>, evs: seq<Event>)
    ensures Run(bootstraps, evs).0.peers != {} <==> AnyKnown(bootstraps, evs)
  {
    hide Known, Run;
    var svc := Run(bootstraps, evs).0;
    forall p ensures p in svc.peers <==> Known(bootstraps, evs, p) { PeersExactly(bootstraps, evs, p); }
  }

  ghost function Issues(bootstraps: set<Peer>, q: QueryId, c: Cid): Test {
    (before: seq<Event>, ev: Event) =>
      ev.Get? && ev.query == q && ev.cid == c && AnyKnown(bootstraps, before)
  }

  ghost function Settles(bootstraps: set<Peer>, q: QueryId): Test {
    (before: seq<Event>, ev: Event) =>
      (ev.Completed? && ev.query == q) || (ev.Get? && ev.query == q && AnyKnown(bootstraps, before))
  }

  /** Query `q` was issued for `c` and is not completed. */
  ghost predicate Outstanding(bootstraps: set<Peer>, evs: seq<Event>, q: QueryId, c: Cid) {
    Since(evs, Issues(bootstraps, q, c), Settles(bootstraps, q))
  }

  ghost predicate Queries(svc: Service, q: QueryId, c: Cid) {
    q in svc.queries && svc.queries[q] == c
  }

  lemma {:induction false} QueriesExactly(bootstraps: set<Peer>, evs: seq<Event>, q: QueryId, c: Cid)
    ensures Queries(Run(bootstraps, evs).0, q, c) <==> Outstanding(bootstraps, evs, q, c)
  {
    hide Since, AnyKnown;
    NeverYet(Issues(bootstraps, q, c), Settles(bootstraps, q));
    if evs != [] {
      QueriesExactly(bootstraps, Front(evs), q, c);
      SomePeers(bootstraps, Front(evs));
      SinceLast(evs, Issues(bootstraps, q, c), Settles(bootstraps, q));
    }
  }

  /** Who waits for `c`, in the order of asking: those accepted since a query for it last completed. */
  ghost function Queue(bootstraps: set<Peer>, evs: seq<Event>, c: Cid): seq<Waiter> {
    if evs == [] then [] else
    var before := Queue(bootstraps, Front(evs), c);
    match Last(evs)
    case Get(x, w, _) => if x == c && AnyKnown(bootstraps, Front(evs)) then before + [w] else before
    case Completed(q, _) => if Outstanding(bootstraps, Front(evs), q, c) then [] else before
    case _ => before
  }

  lemma {:induction false} WaitersExactly(bootstraps: set<Peer>, evs: seq<Event>, c: Cid)
    ensures Waiting(Run(bootstraps, evs).0, c) == Queue(bootstraps, evs, c)
  {
    if evs != [] {
      hide Outstanding, AnyKnown;
      WaitersExactly(bootstraps, Front(evs), c);
      SomePeers(bootstraps, Front(evs));
      if Last(evs).Completed? { QueriesExactly(bootstraps, Front(evs), Last(evs).query, c); }
    }
  }

  /** The event answers `w`: with "no peers", a request that finds nobody to ask; with the result of a
      query, its completion while `w` waits for the id it was issued for. */
  ghost predicate AnswersTo(bootstraps: set<Peer>, before: seq<Event>, ev: Event, w: Waiter, r: Reply) {
    match ev
    case Get(_, x, _) => x == w && r == NoPeers && !AnyKnown(bootstraps, before)
    case Completed(q, ok) =>
      r == (if ok then Found else NotFound) &&
      exists c :: Outstanding(bootstraps, before, q, c) && w in Queue(bootstraps, before, c)
    case _ => false
  }

  ghost predicate Answered(bootstraps: set<Peer>, evs: seq<Event>, w: Waiter, r: Reply) {
    exists i :: 0 <= i < |evs| && AnswersTo(bootstraps, evs[..i], evs[i], w, r)
  }

  lemma AnsweredLast(bootstraps: set<Peer>, evs: seq<Event>, w: Waiter, r: Reply)
    requires evs != []
    ensures Answered(bootstraps, evs, w, r) <==>
              Answered(bootstraps, Front(evs), w, r) || AnswersTo(bootstraps, Front(evs), Last(evs), w, r)
  {
    hide AnswersTo;
    var (front, n) := (Front(evs), |evs| - 1);
    assert forall j :: 0 <= j < n ==> front[..j] == evs[..j] && front[j] == evs[j];
    assert evs[..n] == front;
    if Answered(bootstraps, front, w, r) {
      var i :| 0 <= i < |front| && AnswersTo(bootstraps, front[..i], front[i], w, r);
      assert AnswersTo(bootstraps, evs[..i], evs[i], w, r);
    }
    if Answered(bootstraps, evs, w, r) {
      var i :| 0 <= i < |evs| && AnswersTo(bootstraps, evs[..i], evs[i], w, r);
      assert i < n ==> AnswersTo(bootstraps, front[..i], front[i], w, r);
    }
  }

  lemma LastAnswers(bootstraps: set<Peer>, evs: seq<Event>, w: Waiter, r: Reply)
    requires evs != []
    ensures (w, r) in Next(Run(bootstraps, Front(evs)).0, Last(evs)).1 <==>
              AnswersTo(bootstraps, Front(evs), Last(evs), w, r)
  {
    var front := Front(evs);
    var svc := Run(bootstraps, front).0;
    SomePeers(bootstraps, front);
    forall c ensures Waiting(svc, c) == Queue(bootstraps, front, c) { WaitersExactly(bootstraps, front, c); }
    hide AnyKnown, Outstanding, Queue, Run;
    if Last(evs).Completed? {
      var q := Last(evs).query;
      forall c ensures Queries(svc, q, c) <==> Outstanding(bootstraps, front, q, c) {
        QueriesExactly(bootstraps, front, q, c);
      }
      if q in svc.queries {
        assert Queries(svc, q, svc.queries[q]);
        InReplies(Waiting(svc, svc.queries[q]), if Last(evs).ok then Found else NotFound, w, r);
      }
    }
  }

  lemma InReplies(ws: seq<Waiter>, reply: Reply, w: Waiter, r: Reply)
    ensures (w, r) in Replies(ws, reply) <==> w in ws && r == reply
  {
    if w in ws {
      var i :| 0 <= i < |ws| && ws[i] == w;
      assert Replies(ws, reply)[i] == (w, reply);
    }
  }

  /** Over every run: a waiter is sent a reply if and only if some event answers it so. In particular
      "no peers" goes exactly to the requests that found nobody to ask, and "found" only to one that
      waited for the id of a query that succeeded. */
  lemma {:induction false} RepliesExactly(bootstraps: set<Peer>, evs: seq<Event>, w: Waiter, r: Reply)
    ensures (w, r) in Run(bootstraps, evs).1.replies <==> Answered(bootstraps, evs, w, r)
  {
    if evs != [] {
      hide AnswersTo, Answered;
      RepliesExactly(bootstraps, Front(evs), w, r);
      var (svc, h) := Run(bootstraps, Front(evs));
      LastAnswers(bootstraps, evs, w, r);
      AnsweredLast(bootstraps, evs, w, r);
      RepliesGrow(h, svc, Last(evs));
    } else {
      assert !Answered(bootstraps, evs, w, r);
    }
  }

  lemma RepliesGrow(h: History, svc: Service, ev: Event)
    ensures Record(h, svc, ev).replies == h.replies + Next(svc, ev).1
  {
  }
}
