/**
 * Queries against the committed state (crates/ursa-application/src/types.rs:340-388), interleaved in
 * any way with the steps of an engine run; the commit is split at its two locks (:279-289).
 */
module AbciQueries {
  import opened Prelude
  import opened Evm
  import opened Abci

  datatype Request = InfoReq | QueryReq(data: Bytes)

  datatype Response =
    | InfoOf(height: int, appHash: Bytes)
    | CouldNotDecode
    | TxResult(result: Bytes)
    | BalanceOf(balance: nat)
    | Panicked

  /** Answering a request: the state it leaves behind, with look-ups cached, and the response. */
  function Answer(m: Machine, st: State, req: Request): (State, Response) {
    match req
    case InfoReq => (st, InfoOf(st.height, st.appHash))
    case QueryReq(data) =>
      match m.decodeQuery(data)
      case None => (st, CouldNotDecode)
      case Some(EthCall(tx)) =>
        if !tx.target.ToAddress? then (st, Panicked) else
        var (db, r) := Execute(m, st.db, tx, true);
        (st.(db := db), if r.Ok? then TxResult(r.value) else Panicked)
      case Some(Balance(a)) =>
        var db := Touch(st.db, {a});
        (st.(db := db), BalanceOf(if db[a].Account? then db[a].balance else 0))
  }

  /** A block height, its application hash and what can be observed there. */
  datatype Snapshot = Snapshot(height: int, appHash: Bytes, view: View)

  function Seen(st: State): Snapshot {
    Snapshot(st.height, st.appHash, Observe(st.db))
  }

  /** The response a snapshot determines. */
  function Respond(m: Machine, s: Snapshot, req: Request): Response {
    match req
    case InfoReq => InfoOf(s.height, s.appHash)
    case QueryReq(data) =>
      match m.decodeQuery(data)
      case None => CouldNotDecode
      case Some(EthCall(tx)) =>
        if !tx.target.ToAddress? then Panicked else
        (match Effect(m, s.view, tx) case None => Panicked case Some((_, result)) => TxResult(result))
      case Some(Balance(a)) =>
        BalanceOf(if a in s.view && s.view[a].Account? then s.view[a].balance else 0)
  }

  /** An answer depends only on what is observable, and answering changes nothing observable. */
  lemma AnswerObserved(m: Machine, st: State, req: Request)
    ensures var (st', r) := Answer(m, st, req);
            r == Respond(m, Seen(st), req) && Seen(st') == Seen(st)
  {
    if req.QueryReq? {
      match m.decodeQuery(req.data)
      case None =>
      case Some(EthCall(tx)) => ExecuteObserved(m, st.db, tx, true);
      case Some(Balance(a)) => TouchUnobservable(st.db, {a});
    }
  }

  // ----- one engine run, step by step

  datatype Phase =
    | Starting
    | Idle
    | InBlock(delivered: seq<Bytes>)
    | Ended(delivered: seq<Bytes>)
    | Cloned(delivered: seq<Bytes>, clone: State)
    | Halted

  datatype System = System(
    current: State,
    committed: State,
    lastBlockHeight: int,
    phase: Phase,
    blocks: seq<seq<Bytes>>)   // the transactions of each committed block

  datatype Event =
    | Init | Begin | DeliverTx(raw: Bytes) | BatchError | End | CommitClone | CommitStore | Ask(req: Request)

  predicate Enabled(sys: System, ev: Event) {
    match ev
    case Init => sys.phase.Starting?
    case Begin => sys.phase.Idle?
    case DeliverTx(_) => sys.phase.InBlock?
    case BatchError => sys.phase.InBlock?
    case End => sys.phase.InBlock?
    case CommitClone => sys.phase.Ended?
    case CommitStore => sys.phase.Cloned?
    case Ask(_) => true
  }

  function Next(m: Machine, sys: System, ev: Event): System
    requires Enabled(sys, ev)
  {
    match ev
    case Init =>
      var (st, ok) := InitChain(m, sys.current);
      sys.(current := st, phase := if ok then Idle else Halted)
    case Begin => sys.(lastBlockHeight := sys.lastBlockHeight + 1, phase := InBlock([]))
    case DeliverTx(raw) =>
      var (st, r) := Deliver(m, sys.current, raw);
      sys.(current := st, phase := if r.Ok? then InBlock(sys.phase.delivered + [raw]) else Halted)
    case BatchError => sys.(phase := Halted)
    case End =>
      sys.(current := sys.current.(height := sys.lastBlockHeight, appHash := []), phase := Ended(sys.phase.delivered))
    case CommitClone => sys.(phase := Cloned(sys.phase.delivered, sys.current))
    case CommitStore =>
      sys.(committed := sys.phase.clone, phase := Idle, blocks := sys.blocks + [sys.phase.delivered])
    case Ask(req) => sys.(committed := Answer(m, sys.committed, req).0)
  }

  /** An engine run about to start on an application with these two states. */
  function StartOf(o: Node): System {
    System(o.current, o.committed, o.lastBlockHeight, Starting, [])
  }

  ghost predicate Runs(m: Machine, sys: System, evs: seq<Event>, sys': System)
    decreases |evs|
  {
    if evs == [] then sys' == sys
    else Enabled(sys, evs[0]) && Runs(m, Next(m, sys, evs[0]), evs[1..], sys')
  }

  // ----- whole blocks

  function Flatten(blocks: seq<seq<Bytes>>): seq<Bytes> {
    if blocks == [] then [] else Flatten(blocks[..|blocks| - 1]) + blocks[|blocks| - 1]
  }

  /** The view of the chain after transactions `raws` since genesis. */
  function ChainView(m: Machine, o: Node, raws: seq<Bytes>): Option<View> {
    match GenesisView(m, Observe(o.current.db))
    case None => None
    case Some(v) => ReplayAll(m, v, raws)
  }

  /** `s` is the initial committed state, or the replay of a whole number of blocks. */
  ghost predicate WholeBlocks(m: Machine, o: Node, blocks: seq<seq<Bytes>>, s: Snapshot) {
    if blocks == [] then s == Seen(o.committed)
    else s.height == o.lastBlockHeight + |blocks| && s.appHash == [] && ChainView(m, o, Flatten(blocks)) == Some(s.view)
  }

  ghost predicate SystemInv(m: Machine, o: Node, sys: System) {
    && WholeBlocks(m, o, sys.blocks, Seen(sys.committed))
    && match sys.phase
       case Starting => sys.blocks == [] && sys.current == o.current && sys.lastBlockHeight == o.lastBlockHeight
       case Idle =>
         && sys.lastBlockHeight == o.lastBlockHeight + |sys.blocks|
         && ChainView(m, o, Flatten(sys.blocks)) == Some(Observe(sys.current.db))
       case InBlock(d) =>
         && sys.lastBlockHeight == o.lastBlockHeight + |sys.blocks| + 1
         && ChainView(m, o, Flatten(sys.blocks) + d) == Some(Observe(sys.current.db))
       case Ended(d) =>
         && sys.lastBlockHeight == o.lastBlockHeight + |sys.blocks| + 1
         && ChainView(m, o, Flatten(sys.blocks) + d) == Some(Observe(sys.current.db))
         && sys.current.height == sys.lastBlockHeight && sys.current.appHash == []
       case Cloned(d, clone) =>
         && sys.lastBlockHeight == o.lastBlockHeight + |sys.blocks| + 1
         && ChainView(m, o, Flatten(sys.blocks) + d) == Some(Observe(sys.current.db))
         && clone == sys.current && clone.height == sys.lastBlockHeight && clone.appHash == []
       case Halted => true
  }

  lemma NextKeepsInv(m: Machine, o: Node, sys: System, ev: Event)
    requires SystemInv(m, o, sys) && Enabled(sys, ev)
    ensures SystemInv(m, o, Next(m, sys, ev))
    ensures sys.blocks <= Next(m, sys, ev).blocks
  {
    match ev
    case Init => InitChainObserved(m, sys.current);
    case Begin => assert Flatten(sys.blocks) + [] == Flatten(sys.blocks);
    case DeliverTx(raw) =>
      DeliverReplays(m, sys.current, raw);
      var (d, v) := (sys.phase.delivered, GenesisView(m, Observe(o.current.db)).value);
      assert Flatten(sys.blocks) + (d + [raw]) == Flatten(sys.blocks) + d + [raw];
      ReplayConcat(m, v, Flatten(sys.blocks) + d, [raw]);
      var v1 := Observe(sys.current.db);
      assert Replay(m, v1, raw).Some? ==> ReplayAll(m, v1, [raw]) == ReplayAll(m, Replay(m, v1, raw).value, []);
    case BatchError =>
    case End =>
    case CommitClone =>
    case CommitStore =>
      assert (sys.blocks + [sys.phase.delivered])[..|sys.blocks|] == sys.blocks;
    case Ask(req) => AnswerObserved(m, sys.committed, req);
  }

  lemma {:induction false} RunKeepsInv(m: Machine, o: Node, sys: System, evs: seq<Event>, sys': System)
    requires SystemInv(m, o, sys) && Runs(m, sys, evs, sys')
    ensures SystemInv(m, o, sys') && sys.blocks <= sys'.blocks
    decreases |evs|
  {
    if evs != [] {
      NextKeepsInv(m, o, sys, evs[0]);
      RunKeepsInv(m, o, Next(m, sys, evs[0]), evs[1..], sys');
    }
  }

  /** In every interleaving of requests with one engine run, a request is answered from the initial
      committed state or from the replay of a whole number of blocks, never from the middle of one. */
  lemma AnswersSeeWholeBlocks(m: Machine, o: Node, evs: seq<Event>, sys: System, req: Request)
    requires Runs(m, StartOf(o), evs, sys)
    ensures exists s :: WholeBlocks(m, o, sys.blocks, s) && Answer(m, sys.committed, req).1 == Respond(m, s, req)
  {
    RunKeepsInv(m, o, StartOf(o), evs, sys);
    AnswerObserved(m, sys.committed, req);
    assert WholeBlocks(m, o, sys.blocks, Seen(sys.committed));
  }

  /** A later request never sees fewer blocks than an earlier one. */
  lemma AnswersNeverGoBack(m: Machine, o: Node, evs: seq<Event>, sys: System, more: seq<Event>, sys': System)
    requires Runs(m, StartOf(o), evs, sys) && Runs(m, sys, more, sys')
    ensures sys.blocks <= sys'.blocks && WholeBlocks(m, o, sys'.blocks, Seen(sys'.committed))
  {
    RunKeepsInv(m, o, StartOf(o), evs, sys);
    RunKeepsInv(m, o, sys, more, sys');
  }

  /** A request is invisible: from states that look the same, the system makes the same blocks. */
  lemma AskingIsInvisible(m: Machine, sys: System, req: Request)
    ensures var sys' := Next(m, sys, Ask(req));
            && Seen(sys'.committed) == Seen(sys.committed)
            && sys' == sys.(committed := sys'.committed)
  {
    AnswerObserved(m, sys.committed, req);
  }

  // ----- `handle_cert` is such a run

  lemma {:induction false} RunsConcat(m: Machine, sys: System, a: seq<Event>, mid: System, b: seq<Event>, sys': System)
    requires Runs(m, sys, a, mid) && Runs(m, mid, b, sys')
    ensures Runs(m, sys, a + b, sys')
    decreases |a|
  {
    if a == [] {
      assert a + b == b;
    } else {
      assert (a + b)[0] == a[0] && (a + b)[1..] == a[1..] + b;
      RunsConcat(m, Next(m, sys, a[0]), a[1..], mid, b, sys');
    }
  }

  function Delivers(raws: seq<Bytes>): seq<Event> {
    seq(|raws|, i requires 0 <= i < |raws| => DeliverTx(raws[i]))
  }

  lemma {:induction false} DeliverRun(m: Machine, sys: System, raws: seq<Bytes>)
    requires sys.phase.InBlock? && DeliverAll(m, sys.current, raws).1
    ensures Runs(m, sys, Delivers(raws),
                 sys.(current := DeliverAll(m, sys.current, raws).0, phase := InBlock(sys.phase.delivered + raws)))
    decreases |raws|
  {
    if raws == [] {
      assert sys.phase.delivered + raws == sys.phase.delivered;
    } else {
      assert Delivers(raws)[1..] == Delivers(raws[1..]);
      assert sys.phase.delivered + raws == sys.phase.delivered + [raws[0]] + raws[1..];
      DeliverRun(m, Next(m, sys, DeliverTx(raws[0])), raws[1..]);
    }
  }

  lemma {:induction false} DeliverAllConcat(m: Machine, st: State, a: seq<Bytes>, b: seq<Bytes>)
    requires DeliverAll(m, st, a).1
    ensures DeliverAll(m, st, a + b) == DeliverAll(m, DeliverAll(m, st, a).0, b)
    decreases |a|
  {
    if a == [] {
      assert a + b == b;
    } else {
      assert (a + b)[0] == a[0] && (a + b)[1..] == a[1..] + b;
      DeliverAllConcat(m, Deliver(m, st, a[0]).0, a[1..], b);
    }
  }

  lemma {:induction false} BatchesFlat(m: Machine, st: State, cert: Cert)
    requires DeliverBatches(m, st, cert).1
    ensures Transactions(m, cert).Some? && DeliverBatches(m, st, cert) == DeliverAll(m, st, Transactions(m, cert).value)
    decreases |cert.payload|
  {
    if cert.payload != [] {
      var raws := m.decodeBatch(cert.worker[cert.payload[0]]).value;
      var rest := cert.(payload := cert.payload[1..]);
      BatchesFlat(m, DeliverAll(m, st, raws).0, rest);
      DeliverAllConcat(m, st, raws, Transactions(m, rest).value);
    }
  }

  /** Handling a certificate is the uninterrupted run of one block, over its transactions in order. */
  lemma HandleCertIsRun(m: Machine, sys: System, cert: Cert)
    requires sys.phase.Idle? && HandleCert(m, Node(sys.current, sys.committed, sys.lastBlockHeight), cert).1
    ensures var node := HandleCert(m, Node(sys.current, sys.committed, sys.lastBlockHeight), cert).0;
            && Transactions(m, cert).Some?
            && var raws := Transactions(m, cert).value;
               Runs(m, sys, [Begin] + Delivers(raws) + [End, CommitClone, CommitStore],
                    System(node.current, node.committed, node.lastBlockHeight, Idle, sys.blocks + [raws]))
  {
    BatchesFlat(m, sys.current, cert);
    var raws := Transactions(m, cert).value;
    var begun := Next(m, sys, Begin);
    DeliverRun(m, begun, raws);
    DeliverAllReplays(m, sys.current, raws);
    var delivered := begun.(current := DeliverAll(m, sys.current, raws).0, phase := InBlock(raws));
    assert [] + raws == raws;
    assert [Begin][1..] == [];
    RunsConcat(m, sys, [Begin], begun, Delivers(raws), delivered);
    var ended := Next(m, delivered, End);
    var cloned := Next(m, ended, CommitClone);
    var stored := Next(m, cloned, CommitStore);
    var tail := [End, CommitClone, CommitStore];
    assert tail[1..] == [CommitClone, CommitStore] && tail[1..][1..] == [CommitStore] && tail[1..][1..][1..] == [];
    assert Runs(m, cloned, tail[1..][1..], stored);
    assert Runs(m, ended, tail[1..], stored);
    RunsConcat(m, sys, [Begin] + Delivers(raws), delivered, tail, stored);
  }

  /** Delivery that fails: the transactions before the failing one, then that one. */
  lemma {:induction false} FailingDeliverRun(m: Machine, sys: System, raws: seq<Bytes>) returns (last: Event)
    requires sys.phase.InBlock? && !DeliverAll(m, sys.current, raws).1
    ensures Runs(m, sys, Delivers(DeliveredOf(m, sys.current, raws)) + [last],
                 sys.(current := DeliverAll(m, sys.current, raws).0, phase := Halted))
    decreases |raws|
  {
    var (st, r) := Deliver(m, sys.current, raws[0]);
    var done := DeliveredOf(m, sys.current, raws);
    if r.Err? {
      last := DeliverTx(raws[0]);
      assert Delivers(done) + [last] == [last] && [last][1..] == [];
      assert Runs(m, Next(m, sys, last), [], Next(m, sys, last));
    } else {
      var sys1 := Next(m, sys, DeliverTx(raws[0]));
      last := FailingDeliverRun(m, sys1, raws[1..]);
      var rest := DeliveredOf(m, st, raws[1..]);
      assert done == [raws[0]] + rest;
      assert Delivers(done) + [last] == [DeliverTx(raws[0])] + (Delivers(rest) + [last]);
      assert ([DeliverTx(raws[0])] + (Delivers(rest) + [last]))[1..] == Delivers(rest) + [last];
    }
  }

  lemma {:induction false} DeliveredAll(m: Machine, st: State, raws: seq<Bytes>)
    requires DeliverAll(m, st, raws).1
    ensures DeliveredOf(m, st, raws) == raws
    decreases |raws|
  {
    if raws != [] { DeliveredAll(m, Deliver(m, st, raws[0]).0, raws[1..]); }
  }

  lemma DeliverThenRun(m: Machine, sys: System, raws: seq<Bytes>, more: seq<Bytes>, last: Event, sys': System)
    requires sys.phase.InBlock? && DeliverAll(m, sys.current, raws).1
    requires Runs(m, sys.(current := DeliverAll(m, sys.current, raws).0, phase := InBlock(sys.phase.delivered + raws)),
                  Delivers(more) + [last], sys')
    ensures Runs(m, sys, Delivers(raws + more) + [last], sys')
  {
    hide Runs, DeliverAll;
    DeliverRun(m, sys, raws);
    var mid := sys.(current := DeliverAll(m, sys.current, raws).0, phase := InBlock(sys.phase.delivered + raws));
    RunsConcat(m, sys, Delivers(raws), mid, Delivers(more) + [last], sys');
    assert Delivers(raws) + (Delivers(more) + [last]) == Delivers(raws + more) + [last];
  }

  lemma {:induction false} FailingBatchesRun(m: Machine, sys: System, cert: Cert) returns (last: Event)
    requires sys.phase.InBlock? && !DeliverBatches(m, sys.current, cert).1
    ensures Runs(m, sys, Delivers(Delivered(m, sys.current, cert)) + [last],
                 sys.(current := DeliverBatches(m, sys.current, cert).0, phase := Halted))
    decreases |cert.payload|
  {
    var done := Delivered(m, sys.current, cert);
    if cert.payload[0] !in cert.worker || m.decodeBatch(cert.worker[cert.payload[0]]).None? {
      last := BatchError;
      assert Delivers(done) + [last] == [last] && [last][1..] == [];
      assert Runs(m, Next(m, sys, last), [], Next(m, sys, last));
    } else {
      var raws := m.decodeBatch(cert.worker[cert.payload[0]]).value;
      var (st, ok) := DeliverAll(m, sys.current, raws);
      if !ok {
        last := FailingDeliverRun(m, sys, raws);
        assert done == DeliveredOf(m, sys.current, raws);
      } else {
        var sys1 := sys.(current := st, phase := InBlock(sys.phase.delivered + raws));
        var rest := cert.(payload := cert.payload[1..]);
        DeliveredAll(m, sys.current, raws);
        last := FailingBatchesRun(m, sys1, rest);
        var halted := sys1.(current := DeliverBatches(m, st, rest).0, phase := Halted);
        DeliverThenRun(m, sys, raws, Delivered(m, st, rest), last, halted);
      }
    }
  }

  /** Handling a certificate that fails is a run too: its block begins, what it delivers is delivered,
      and then a missing or malformed batch or a failing transaction halts the engine. */
  lemma FailingCertIsRun(m: Machine, sys: System, cert: Cert) returns (last: Event)
    requires sys.phase.Idle? && !HandleCert(m, Node(sys.current, sys.committed, sys.lastBlockHeight), cert).1
    ensures var node := HandleCert(m, Node(sys.current, sys.committed, sys.lastBlockHeight), cert).0;
            Runs(m, sys, [Begin] + (Delivers(Delivered(m, sys.current, cert)) + [last]),
                 System(node.current, node.committed, node.lastBlockHeight, Halted, sys.blocks))
  {
    var begun := Next(m, sys, Begin);
    last := FailingBatchesRun(m, begun, cert);
    var evs := Delivers(Delivered(m, sys.current, cert)) + [last];
    assert ([Begin] + evs)[1..] == evs;
  }

  lemma {:induction false} CertsAreRun(m: Machine, sys: System, certs: seq<Cert>)
    returns (evs: seq<Event>, sys': System)
    requires sys.phase.Idle?
    ensures Runs(m, sys, evs, sys')
    ensures var (node, ok) := HandleCerts(m, Node(sys.current, sys.committed, sys.lastBlockHeight), certs);
            && Node(sys'.current, sys'.committed, sys'.lastBlockHeight) == node
            && sys'.phase == if ok then Idle else Halted
    decreases |certs|
  {
    evs, sys' := [], sys;
    if certs != [] {
      var (node, ok) := HandleCert(m, Node(sys.current, sys.committed, sys.lastBlockHeight), certs[0]);
      if !ok {
        var last := FailingCertIsRun(m, sys, certs[0]);
        evs := [Begin] + (Delivers(Delivered(m, sys.current, certs[0])) + [last]);
        sys' := System(node.current, node.committed, node.lastBlockHeight, Halted, sys.blocks);
      } else {
        HandleCertIsRun(m, sys, certs[0]);
        var raws := Transactions(m, certs[0]).value;
        var block := [Begin] + Delivers(raws) + [End, CommitClone, CommitStore];
        var sys1 := System(node.current, node.committed, node.lastBlockHeight, Idle, sys.blocks + [raws]);
        var more, sys2 := CertsAreRun(m, sys1, certs[1..]);
        RunsConcat(m, sys, block, sys1, more, sys2);
        evs, sys' := block + more, sys2;
      }
    }
  }

  /** A whole engine run, failing or not, is a run of the step machine, so what holds in every
      interleaving holds around it. */
  lemma EngineRunIsRun(m: Machine, o: Node, certs: seq<Cert>) returns (evs: seq<Event>, sys: System)
    ensures Runs(m, StartOf(o), evs, sys)
    ensures var (node, ok) := EngineRun(m, o, certs);
            && Node(sys.current, sys.committed, sys.lastBlockHeight) == node
            && sys.phase == if ok then Idle else Halted
  {
    var begun := Next(m, StartOf(o), Init);
    if InitChain(m, o.current).1 {
      var more, sys' := CertsAreRun(m, begun, certs);
      evs, sys := [Init] + more, sys';
      assert evs[1..] == more;
    } else {
      evs, sys := [Init], begun;
      assert evs[1..] == [];
    }
  }
}
