/**
 * Cache summaries between nodes (crates/ursa-network/src/service.rs:603-604, :709-727, :756-765 and
 * :780-797): every Put sends the node's whole summary to its peers, and a node asks a peer for a
 * block unless the summary it holds of that peer rules the block out. Messages may be lost; whether
 * they arrive in the order they were sent decides what a node may conclude.
 */
module Summaries {
  import opened Prelude
  import opened DagGraph
  import opened Network

  type Node = nat

  datatype Message = Message(sentAt: nat, summary: Summary)

  datatype Net = Net(
    nodes: map<Node, Service>,
    links: map<(Node, Node), seq<Message>>,   // (from, to): in flight, oldest first
    now: nat,                                 // the number of events so far
    puts: map<(Node, Cid), nat>,              // when a node first put an id
    delivered: map<(Node, Node), nat>)        // (from, to): when the last delivered summary was sent

  datatype Event =
    | PutAt(node: Node, cid: Cid)
    | Deliver(from: Node, to: Node, index: nat)
    | Lose(from: Node, to: Node, index: nat)
    | Connect(node: Node, peer: Node)
    | Disconnect(node: Node, peer: Node, established: nat)

  function Link(net: Net, from: Node, to: Node): seq<Message> {
    if (from, to) in net.links then net.links[(from, to)] else []
  }

  predicate Enabled(net: Net, ev: Event) {
    match ev
    case PutAt(n, _) => n in net.nodes
    case Deliver(from, to, i) => to in net.nodes && i < |Link(net, from, to)|
    case Lose(from, to, i) => i < |Link(net, from, to)|
    case Connect(n, _) => n in net.nodes
    case Disconnect(n, _, _) => n in net.nodes
  }

  function Sent(net: Net, n: Node, m: Message): map<(Node, Node), seq<Message>>
    requires n in net.nodes
  {
    net.links + map p | p in net.nodes[n].peers :: (n, p) := Link(net, n, p) + [m]
  }

  function Next(net: Net, ev: Event): Net
    requires Enabled(net, ev)
  {
    var net1 := net.(now := net.now + 1);
    match ev
    case PutAt(n, c) =>
      var (svc, summary) := Put(net.nodes[n], c);
      net1.(nodes := net.nodes[n := svc],
            links := Sent(net, n, Message(net.now, summary)),
            puts := if (n, c) in net.puts then net.puts else net.puts[(n, c) := net.now])
    case Deliver(from, to, i) =>
      var m := Link(net, from, to)[i];
      net1.(nodes := net.nodes[to := StoreSummary(net.nodes[to], from, m.summary)],
            links := net.links[(from, to) := Cut(Link(net, from, to), i)],
            delivered := net.delivered[(from, to) := m.sentAt])
    case Lose(from, to, i) => net1.(links := net.links[(from, to) := Cut(Link(net, from, to), i)])
    case Connect(n, p) => net1.(nodes := net.nodes[n := Connected(net.nodes[n], p)])
    case Disconnect(n, p, k) => net1.(nodes := net.nodes[n := Closed(net.nodes[n], p, k)])
  }

  ghost predicate Runs(net: Net, evs: seq<Event>, net': Net)
    decreases |evs|
  {
    if evs == [] then net' == net else Enabled(net, evs[0]) && Runs(Next(net, evs[0]), evs[1..], net')
  }

  /** Nodes that have just started: nothing put, sent, delivered or held. */
  predicate Started(net: Net) {
    && net.links == map[] && net.puts == map[] && net.delivered == map[]
    && forall n :: n in net.nodes ==> net.nodes[n].cached == {} && net.nodes[n].peerCached == map[]
  }

  // ----- summaries are exact, in whatever order they arrive

  /** What `p` had put by time t. */
  ghost predicate IsPutsBy(net: Net, p: Node, t: int, summary: Summary) {
    forall c :: c in summary <==> (p, c) in net.puts && net.puts[(p, c)] <= t
  }

  ghost predicate CachedInv(net: Net, p: Node) {
    && (forall c :: (p, c) in net.puts ==> p in net.nodes && net.puts[(p, c)] < net.now)
    && (p in net.nodes ==> IsPutsBy(net, p, net.now, net.nodes[p].cached))
  }

  /** A summary in flight is what its sender had put when it was sent. */
  ghost predicate LinkInv(net: Net, p: Node, n: Node) {
    forall m :: m in Link(net, p, n) ==> m.sentAt < net.now && IsPutsBy(net, p, m.sentAt, m.summary)
  }

  /** A summary held is what its sender had put when the last delivered one was sent. */
  ghost predicate HeldInv(net: Net, p: Node, n: Node) {
    && ((p, n) in net.delivered ==> net.delivered[(p, n)] < net.now)
    && (n in net.nodes && p in net.nodes[n].peerCached ==>
          (p, n) in net.delivered && IsPutsBy(net, p, net.delivered[(p, n)], net.nodes[n].peerCached[p]))
  }

  ghost predicate PairInv(net: Net, p: Node, n: Node) {
    CachedInv(net, p) && LinkInv(net, p, n) && HeldInv(net, p, n)
  }

  /** A put is later than everything sent before it, so it does not concern it. */
  lemma PutsByKept(net: Net, ev: Event, p: Node, t: nat, summary: Summary)
    requires Enabled(net, ev) && t < net.now && IsPutsBy(net, p, t, summary)
    ensures IsPutsBy(Next(net, ev), p, t, summary)
  {
  }

  lemma NextKeepsCached(net: Net, ev: Event, p: Node)
    requires CachedInv(net, p) && Enabled(net, ev)
    ensures CachedInv(Next(net, ev), p)
  {
  }

  lemma LinkAfter(net: Net, ev: Event, p: Node, n: Node, m: Message)
    requires Enabled(net, ev) && m in Link(Next(net, ev), p, n)
    ensures m in Link(net, p, n) || (ev.PutAt? && ev.node == p && m == Message(net.now, net.nodes[p].cached + {ev.cid}))
  {
  }

  lemma NextKeepsLink(net: Net, ev: Event, p: Node, n: Node)
    requires CachedInv(net, p) && LinkInv(net, p, n) && Enabled(net, ev)
    ensures LinkInv(Next(net, ev), p, n)
  {
    var net' := Next(net, ev);
    NextKeepsCached(net, ev, p);
    forall m | m in Link(net', p, n) ensures m.sentAt < net'.now && IsPutsBy(net', p, m.sentAt, m.summary) {
      LinkAfter(net, ev, p, n, m);
      if m in Link(net, p, n) { PutsByKept(net, ev, p, m.sentAt, m.summary); }
    }
  }

  lemma NextKeepsHeld(net: Net, ev: Event, p: Node, n: Node)
    requires LinkInv(net, p, n) && HeldInv(net, p, n) && Enabled(net, ev)
    ensures HeldInv(Next(net, ev), p, n)
  {
    var net' := Next(net, ev);
    if n in net'.nodes && p in net'.nodes[n].peerCached {
      if ev.Deliver? && ev.from == p && ev.to == n {
        var m := Link(net, p, n)[ev.index];
        assert m in Link(net, p, n);
        PutsByKept(net, ev, p, m.sentAt, m.summary);
      } else {
        PutsByKept(net, ev, p, net.delivered[(p, n)], net.nodes[n].peerCached[p]);
      }
    }
  }

  lemma {:induction false} RunKeepsPair(net: Net, evs: seq<Event>, net': Net, p: Node, n: Node)
    requires PairInv(net, p, n) && Runs(net, evs, net')
    ensures PairInv(net', p, n)
    decreases |evs|
  {
    if evs != [] {
      hide CachedInv, LinkInv, HeldInv, Next;
      NextKeepsCached(net, evs[0], p);
      NextKeepsLink(net, evs[0], p, n);
      NextKeepsHeld(net, evs[0], p, n);
      RunKeepsPair(Next(net, evs[0]), evs[1..], net', p, n);
    }
  }

  /** A summary that `p` sent at or after its put of `c` is the last one delivered to `n`. */
  ghost predicate Informed(net: Net, p: Node, n: Node, c: Cid) {
    (p, c) in net.puts && (p, n) in net.delivered && net.puts[(p, c)] <= net.delivered[(p, n)]
  }

  /** Whatever is lost and in whatever order messages arrive, and whatever the filter reports wrongly: a
      connected peer of which a summary is held is asked for an id if and only if the filter reports the
      id for what the peer had put when the last delivered summary was sent. */
  lemma AskedByFilter(start: Net, evs: seq<Event>, net: Net, filter: Filter, p: Node, n: Node, c: Cid, puts: Summary)
    requires Started(start) && Runs(start, evs, net)
    requires n in net.nodes && p in net.nodes[n].peers && p in net.nodes[n].peerCached
    ensures (p, n) in net.delivered
    ensures IsPutsBy(net, p, net.delivered[(p, n)], puts) ==>
              (p in Providers(net.nodes[n], filter, c) <==> filter(puts, c))
  {
    StartInv(start, p, n);
    RunKeepsPair(start, evs, net, p, n);
    hide Runs, Started, CachedInv, LinkInv, OrderInv;
    if IsPutsBy(net, p, net.delivered[(p, n)], puts) {
      assert puts == net.nodes[n].peerCached[p];
    }
  }

  /** With a filter that reports exactly its contents, a connected peer of which a summary is held is
      asked for an id if and only if the last delivered summary was sent at or after the peer's put of
      that id. */
  lemma AskedExactly(start: Net, evs: seq<Event>, net: Net, p: Node, n: Node, c: Cid)
    requires Started(start) && Runs(start, evs, net)
    requires n in net.nodes && p in net.nodes[n].peers && p in net.nodes[n].peerCached
    ensures p in Providers(net.nodes[n], (s: Summary, x: Cid) => x in s, c) <==> Informed(net, p, n, c)
  {
    StartInv(start, p, n);
    RunKeepsPair(start, evs, net, p, n);
    hide Runs, Started, CachedInv, LinkInv, OrderInv;
  }

  // ----- in-order delivery keeps a node informed

  ghost predicate InOrder(evs: seq<Event>) {
    forall ev :: ev in evs && ev.Deliver? ==> ev.index == 0
  }

  /** In sending order, all sent in [lo, hi). */
  ghost predicate Ordered(link: seq<Message>, lo: int, hi: int) {
    && (forall m :: m in link ==> lo <= m.sentAt < hi)
    && (forall i, j :: 0 <= i < j < |link| ==> link[i].sentAt <= link[j].sentAt)
  }

  function Floor(net: Net, p: Node, n: Node): int {
    if (p, n) in net.delivered then net.delivered[(p, n)] else -1
  }

  /** In flight in sending order, none older than the last delivered. */
  ghost predicate OrderInv(net: Net, p: Node, n: Node) {
    Ordered(Link(net, p, n), Floor(net, p, n), net.now)
  }

  lemma OrderedAppend(link: seq<Message>, lo: int, m: Message)
    requires Ordered(link, lo, m.sentAt) && lo <= m.sentAt
    ensures Ordered(link + [m], lo, m.sentAt + 1)
  {
  }

  lemma OrderedCut(link: seq<Message>, lo: int, hi: int, i: nat)
    requires Ordered(link, lo, hi) && i < |link|
    ensures Ordered(Cut(link, i), lo, hi + 1)
    ensures lo <= link[i].sentAt && (i == 0 ==> Ordered(Cut(link, i), link[0].sentAt, hi + 1))
  {
    assert link[i] in link;
  }

  /** The link after an event: unchanged, one longer by a put, or one shorter. */
  lemma LinkCases(net: Net, ev: Event, p: Node, n: Node)
    requires Enabled(net, ev)
    ensures var (link, link') := (Link(net, p, n), Link(Next(net, ev), p, n));
            if ev.PutAt? then
              link' == if ev.node == p && n in net.nodes[p].peers
                       then link + [Message(net.now, net.nodes[p].cached + {ev.cid})] else link
            else if (ev.Deliver? || ev.Lose?) && ev.from == p && ev.to == n then link' == Cut(link, ev.index)
            else link' == link
  {
  }

  lemma FloorCases(net: Net, ev: Event, p: Node, n: Node)
    requires Enabled(net, ev)
    ensures Next(net, ev).now == net.now + 1
    ensures Floor(Next(net, ev), p, n) ==
              if ev.Deliver? && ev.from == p && ev.to == n then Link(net, p, n)[ev.index].sentAt else Floor(net, p, n)
  {
  }

  lemma NextKeepsOrder(net: Net, ev: Event, p: Node, n: Node)
    requires OrderInv(net, p, n) && Floor(net, p, n) < net.now && Enabled(net, ev) && (ev.Deliver? ==> ev.index == 0)
    ensures OrderInv(Next(net, ev), p, n) && Floor(net, p, n) <= Floor(Next(net, ev), p, n) < net.now + 1
  {
    LinkCases(net, ev, p, n);
    FloorCases(net, ev, p, n);
    var link := Link(net, p, n);
    hide Link, Ordered, Next, Floor;
    if (ev.Deliver? || ev.Lose?) && ev.from == p && ev.to == n {
      OrderedCut(link, Floor(net, p, n), net.now, ev.index);
      SentBefore(link, Floor(net, p, n), net.now, ev.index);
    } else if ev.PutAt? {
      OrderedAppend(link, Floor(net, p, n), Message(net.now, net.nodes[ev.node].cached + {ev.cid}));
      OrderedLater(link, Floor(net, p, n), net.now);
    } else {
      OrderedLater(link, Floor(net, p, n), net.now);
    }
  }

  lemma OrderedLater(link: seq<Message>, lo: int, hi: int)
    requires Ordered(link, lo, hi)
    ensures Ordered(link, lo, hi + 1)
  {
  }

  lemma SentBefore(link: seq<Message>, lo: int, hi: int, i: nat)
    requires Ordered(link, lo, hi) && i < |link|
    ensures link[i].sentAt < hi
  {
    assert link[i] in link;
  }

  lemma {:induction false} RunKeepsInformed(net: Net, evs: seq<Event>, net': Net, p: Node, n: Node, c: Cid)
    requires OrderInv(net, p, n) && Floor(net, p, n) < net.now && Runs(net, evs, net') && InOrder(evs)
    ensures OrderInv(net', p, n) && Floor(net, p, n) <= Floor(net', p, n) < net'.now
    ensures Informed(net, p, n, c) ==> Informed(net', p, n, c)
    decreases |evs|
  {
    if evs != [] {
      assert evs[0] in evs && forall ev :: ev in evs[1..] ==> ev in evs;
      NextKeepsOrder(net, evs[0], p, n);
      InformedByFloor(net, evs[0], p, n, c);
      assert Next(net, evs[0]).now == net.now + 1;
      hide OrderInv, Informed, Next, Floor;
      RunKeepsInformed(Next(net, evs[0]), evs[1..], net', p, n, c);
    }
  }

  lemma InformedByFloor(net: Net, ev: Event, p: Node, n: Node, c: Cid)
    requires Enabled(net, ev) && Floor(net, p, n) <= Floor(Next(net, ev), p, n)
    ensures Informed(net, p, n, c) ==> Informed(Next(net, ev), p, n, c)
  {
  }

  lemma StartInv(net: Net, p: Node, n: Node)
    requires Started(net)
    ensures PairInv(net, p, n) && OrderInv(net, p, n) && Floor(net, p, n) < net.now
  {
  }

  lemma HeldAllows(net: Net, filter: Filter, p: Node, n: Node, c: Cid)
    requires HeldInv(net, p, n) && Informed(net, p, n, c) && NoFalseNegatives(filter)
    requires n in net.nodes && p in net.nodes[n].peers
    ensures p in Providers(net.nodes[n], filter, c)
  {
  }

  /** With in-order delivery, once a summary sent at or after a peer's put of an id has been delivered,
      nothing that happens later makes the node filter that peer out for that id while the peer is
      connected, with any filter that never reports too little. */
  lemma InformedPeerIsAsked(start: Net, before: seq<Event>, net: Net, after: seq<Event>, net': Net,
                            filter: Filter, p: Node, n: Node, c: Cid)
    requires Started(start) && NoFalseNegatives(filter) && InOrder(before) && InOrder(after)
    requires Runs(start, before, net) && Runs(net, after, net')
    requires Informed(net, p, n, c)
    requires n in net'.nodes && p in net'.nodes[n].peers
    ensures p in Providers(net'.nodes[n], filter, c)
  {
    hide Started, NoFalseNegatives, InOrder, Runs, Informed, Providers, CachedInv, LinkInv, HeldInv, OrderInv, Floor;
    StartInv(start, p, n);
    RunKeepsPair(start, before, net, p, n);
    RunKeepsPair(net, after, net', p, n);
    RunKeepsInformed(start, before, net, p, n, c);
    RunKeepsInformed(net, after, net', p, n, c);
    HeldAllows(net', filter, p, n, c);
  }

  /** Out of order it is otherwise: when a newer summary overtakes an older one sent before the put,
      the node is informed by the first to arrive and no longer by the second. */
  lemma OvertakenSummaryForgets(net: Net, p: Node, n: Node, c: Cid)
    requires n in net.nodes && |Link(net, p, n)| >= 2 && (p, c) in net.puts
    requires Link(net, p, n)[0].sentAt < net.puts[(p, c)] <= Link(net, p, n)[1].sentAt
    ensures var net1 := Next(net, Deliver(p, n, 1));
            && Informed(net1, p, n, c)
            && Enabled(net1, Deliver(p, n, 0))
            && !Informed(Next(net1, Deliver(p, n, 0)), p, n, c)
  {
    var net1 := Next(net, Deliver(p, n, 1));
    assert Link(net1, p, n) == Cut(Link(net, p, n), 1);
    assert Link(net1, p, n)[0] == Link(net, p, n)[0];
  }
}
