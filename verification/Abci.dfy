/**
 * The ABCI application and the engine that drives it, as values: what each call does to the current
 * and the committed state (crates/ursa-application/src/types.rs:116-290, crates/ursa-consensus/src/
 * engine.rs:97-110 and :162-202), and what a run of certificates leaves committed.
 */
module Abci {
  import opened Prelude
  import opened Evm

  datatype State = State(height: int, appHash: Bytes, db: Db)

  datatype Panic = NotAnAddress | ExecutionFailed

  type Digest = nat

  /** A certificate's batch digests, with the worker store they are read from. */
  datatype Cert = Cert(payload: seq<Digest>, worker: map<Digest, Bytes>)

  // ----- the application

  /** `deliver_tx`: an undecodable transaction is answered without effect (None). */
  function Deliver(m: Machine, st: State, raw: Bytes): (State, Result<Option<Bytes>, Panic>) {
    match m.decodeTx(raw)
    case None => (st, Ok(None))
    case Some(tx) =>
      if tx.target.ToName? then (st, Err(NotAnAddress)) else
      var (db, r) := Execute(m, st.db, tx, false);
      (st.(db := db), if r.Ok? then Ok(Some(r.value)) else Err(ExecutionFailed))
  }

  function ExecuteAll(m: Machine, db: Db, txs: seq<Tx>): (Db, bool)
    decreases |txs|
  {
    if txs == [] then (db, true) else
    var (db1, r) := Execute(m, db, txs[0], false);
    if r.Err? then (db1, false) else ExecuteAll(m, db1, txs[1..])
  }

  /** `init_chain`: installs the contracts and runs their initializers on the current state. The
      commit it builds is never awaited and does not happen. */
  function InitChain(m: Machine, current: State): (State, bool) {
    var (db, ok) := ExecuteAll(m, current.db + m.contracts, m.initTxs);
    (current.(db := db), ok)
  }

  // ----- the engine

  function DeliverAll(m: Machine, st: State, raws: seq<Bytes>): (State, bool)
    decreases |raws|
  {
    if raws == [] then (st, true) else
    var (st1, r) := Deliver(m, st, raws[0]);
    if r.Err? then (st1, false) else DeliverAll(m, st1, raws[1..])
  }

  function DeliverBatches(m: Machine, st: State, cert: Cert): (State, bool)
    decreases |cert.payload|
  {
    if cert.payload == [] then (st, true) else
    if cert.payload[0] !in cert.worker then (st, false) else
    match m.decodeBatch(cert.worker[cert.payload[0]])
    case None => (st, false)
    case Some(raws) =>
      var (st1, ok) := DeliverAll(m, st, raws);
      if !ok then (st1, false) else DeliverBatches(m, st1, cert.(payload := cert.payload[1..]))
  }

  datatype Node = Node(current: State, committed: State, lastBlockHeight: int)

  /** `handle_cert`: begin block, deliver, end block, commit. */
  function HandleCert(m: Machine, node: Node, cert: Cert): (Node, bool) {
    var height := node.lastBlockHeight + 1;
    var (delivered, ok) := DeliverBatches(m, node.current, cert);
    if !ok then (node.(current := delivered, lastBlockHeight := height), false) else
    var ended := State(height, [], delivered.db);
    (Node(ended, ended, height), true)
  }

  /** The certificates of one `run`; a failure ends it. */
  function HandleCerts(m: Machine, node: Node, certs: seq<Cert>): (Node, bool)
    decreases |certs|
  {
    if certs == [] then (node, true) else
    var (node1, ok) := HandleCert(m, node, certs[0]);
    if !ok then (node1, false) else HandleCerts(m, node1, certs[1..])
  }

  // ----- the reference: replay transactions on what is observable

  /** The view after a raw transaction; None when the application panics on it. */
  function Replay(m: Machine, v: View, raw: Bytes): Option<View> {
    match m.decodeTx(raw)
    case None => Some(v)
    case Some(tx) =>
      match Effect(m, v, tx)
      case None => None
      case Some((v', _)) => Some(v')
  }

  function ReplayAll(m: Machine, v: View, raws: seq<Bytes>): Option<View>
    decreases |raws|
  {
    if raws == [] then Some(v) else
    match Replay(m, v, raws[0])
    case None => None
    case Some(v') => ReplayAll(m, v', raws[1..])
  }

  /** The transactions of a certificate in batch and transaction order; None when a batch is missing
      or malformed. */
  function Transactions(m: Machine, cert: Cert): Option<seq<Bytes>>
    decreases |cert.payload|
  {
    if cert.payload == [] then Some([]) else
    if cert.payload[0] !in cert.worker then None else
    match (m.decodeBatch(cert.worker[cert.payload[0]]), Transactions(m, cert.(payload := cert.payload[1..])))
    case (Some(raws), Some(rest)) => Some(raws + rest)
    case _ => None
  }

  function AllTransactions(m: Machine, certs: seq<Cert>): Option<seq<Bytes>>
    decreases |certs|
  {
    if certs == [] then Some([]) else
    match (Transactions(m, certs[0]), AllTransactions(m, certs[1..]))
    case (Some(raws), Some(rest)) => Some(raws + rest)
    case _ => None
  }

  /** The view genesis leads to. */
  function GenesisView(m: Machine, v: View): Option<View> {
    EffectAll(m, Observe(v + m.contracts), m.initTxs)
  }

  function EffectAll(m: Machine, v: View, txs: seq<Tx>): Option<View>
    decreases |txs|
  {
    if txs == [] then Some(v) else
    match Effect(m, v, txs[0])
    case None => None
    case Some((v', _)) => EffectAll(m, v', txs[1..])
  }

  /** The view after those of the transactions that come before the first that cannot be executed. */
  function ViewReached(m: Machine, v: View, txs: seq<Tx>): View
    decreases |txs|
  {
    if txs == [] then v else
    match Effect(m, v, txs[0])
    case None => v
    case Some((v', _)) => ViewReached(m, v', txs[1..])
  }

  lemma {:induction false} ReplayConcat(m: Machine, v: View, a: seq<Bytes>, b: seq<Bytes>)
    ensures ReplayAll(m, v, a + b) == match ReplayAll(m, v, a) case None => None case Some(v') => ReplayAll(m, v', b)
    decreases |a|
  {
    if a == [] {
      assert a + b == b;
    } else {
      assert (a + b)[0] == a[0] && (a + b)[1..] == a[1..] + b;
      match Replay(m, v, a[0])
      case None =>
      case Some(v') => ReplayConcat(m, v', a[1..], b);
    }
  }

  // ----- the calls follow the reference

  /** What a transaction is answered: "could not decode" (None) if it does not decode, and otherwise
      the result its execution has on the view. */
  ghost predicate AnsweredAs(m: Machine, v: View, raw: Bytes, r: Result<Option<Bytes>, Panic>) {
    && (r == Ok(None) <==> m.decodeTx(raw).None?)
    && (r == Err(NotAnAddress) <==> m.decodeTx(raw).Some? && m.decodeTx(raw).value.target.ToName?)
    && (forall b :: r == Ok(Some(b)) <==>
          m.decodeTx(raw).Some? && exists v' :: Effect(m, v, m.decodeTx(raw).value) == Some((v', b)))
  }

  lemma DeliverReplays(m: Machine, st: State, raw: Bytes)
    ensures var (st', r) := Deliver(m, st, raw);
            && st' == st.(db := st'.db)
            && AnsweredAs(m, Observe(st.db), raw, r)
            && (r.Ok? <==> Replay(m, Observe(st.db), raw).Some?)
            && Observe(st'.db) == match Replay(m, Observe(st.db), raw) case None => Observe(st.db) case Some(v) => v
  {
    if m.decodeTx(raw).Some? { ExecuteObserved(m, st.db, m.decodeTx(raw).value, false); }
  }

  /** Delivering transactions one by one succeeds exactly when their replay does, with its effect. */
  lemma {:induction false} DeliverAllReplays(m: Machine, st: State, raws: seq<Bytes>)
    ensures var (st', ok) := DeliverAll(m, st, raws);
            && st' == st.(db := st'.db)
            && (ok <==> ReplayAll(m, Observe(st.db), raws).Some?)
            && (ok ==> Some(Observe(st'.db)) == ReplayAll(m, Observe(st.db), raws))
    decreases |raws|
  {
    if raws != [] {
      DeliverReplays(m, st, raws[0]);
      var (st1, r) := Deliver(m, st, raws[0]);
      if r.Ok? { DeliverAllReplays(m, st1, raws[1..]); }
    }
  }

  lemma {:induction false} DeliverBatchesReplays(m: Machine, st: State, cert: Cert)
    ensures var (st', ok) := DeliverBatches(m, st, cert);
            && st' == st.(db := st'.db)
            && (ok ==> Transactions(m, cert).Some? &&
                       ReplayAll(m, Observe(st.db), Transactions(m, cert).value) == Some(Observe(st'.db)))
            && (!ok ==> Transactions(m, cert).None? || ReplayAll(m, Observe(st.db), Transactions(m, cert).value).None?)
    decreases |cert.payload|
  {
    if cert.payload != [] && cert.payload[0] in cert.worker && m.decodeBatch(cert.worker[cert.payload[0]]).Some? {
      var raws := m.decodeBatch(cert.worker[cert.payload[0]]).value;
      var rest := cert.(payload := cert.payload[1..]);
      DeliverAllReplays(m, st, raws);
      DeliverBatchesReplays(m, DeliverAll(m, st, raws).0, rest);
      if Transactions(m, rest).Some? { ReplayConcat(m, Observe(st.db), raws, Transactions(m, rest).value); }
    }
  }

  lemma {:induction false} ExecuteAllObserved(m: Machine, db: Db, txs: seq<Tx>)
    ensures var (db', ok) := ExecuteAll(m, db, txs);
            (ok <==> EffectAll(m, Observe(db), txs).Some?)
            && (ok ==> Some(Observe(db')) == EffectAll(m, Observe(db), txs))
            && Observe(db') == ViewReached(m, Observe(db), txs)
    decreases |txs|
  {
    if txs != [] {
      ExecuteObserved(m, db, txs[0], false);
      var (db1, r) := Execute(m, db, txs[0], false);
      if r.Ok? { ExecuteAllObserved(m, db1, txs[1..]); }
    }
  }

  lemma InitChainObserved(m: Machine, st: State)
    ensures var (st', ok) := InitChain(m, st);
            && st' == st.(db := st'.db)
            && (ok <==> GenesisView(m, Observe(st.db)).Some?)
            && (ok ==> Some(Observe(st'.db)) == GenesisView(m, Observe(st.db)))
            && Observe(st'.db) == ViewReached(m, Observe(Observe(st.db) + m.contracts), m.initTxs)
  {
    assert Observe(st.db + m.contracts) == Observe(Observe(st.db) + m.contracts);
    ExecuteAllObserved(m, st.db + m.contracts, m.initTxs);
  }

  // ----- certificates

  /** A certificate is handled exactly when its batches are all there and well formed and its
      transactions replay; then the replay is committed one block higher. Otherwise the committed
      state is untouched, and the engine's height has run ahead of it. */
  lemma HandleCertExactly(m: Machine, node: Node, cert: Cert)
    ensures var (node', ok) := HandleCert(m, node, cert);
            && (ok <==> Transactions(m, cert).Some? &&
                        ReplayAll(m, Observe(node.current.db), Transactions(m, cert).value).Some?)
            && (ok ==> && node'.committed == node'.current
                       && node'.committed.height == node.lastBlockHeight + 1 && node'.committed.appHash == []
                       && ReplayAll(m, Observe(node.current.db), Transactions(m, cert).value)
                          == Some(Observe(node'.committed.db)))
            && (!ok ==> node'.committed == node.committed)
            && node'.lastBlockHeight == node.lastBlockHeight + 1
            && (node.committed.height == node.lastBlockHeight ==>
                  (node'.committed.height == node'.lastBlockHeight <==> ok))
  {
    DeliverBatchesReplays(m, node.current, cert);
  }

  /** A run of certificates is handled exactly when all its batches are there and well formed and all
      its transactions replay; then the committed state is the replay of all of them in certificate,
      batch and transaction order, and both heights have grown by the number of certificates. */
  lemma {:induction false} CertsCommitReplay(m: Machine, node: Node, certs: seq<Cert>)
    ensures var (node', ok) := HandleCerts(m, node, certs);
            && (ok <==> && AllTransactions(m, certs).Some?
                        && ReplayAll(m, Observe(node.current.db), AllTransactions(m, certs).value).Some?)
            && (ok ==>
                  && ReplayAll(m, Observe(node.current.db), AllTransactions(m, certs).value)
                     == Some(Observe(node'.current.db))
                  && node'.lastBlockHeight == node.lastBlockHeight + |certs|
                  && (if certs == [] then node' == node
                      else node'.committed == node'.current && node'.committed.height == node'.lastBlockHeight))
    decreases |certs|
  {
    if certs != [] {
      HandleCertExactly(m, node, certs[0]);
      var (node1, ok1) := HandleCert(m, node, certs[0]);
      if ok1 { CertsCommitReplay(m, node1, certs[1..]); }
      var first, rest := Transactions(m, certs[0]), AllTransactions(m, certs[1..]);
      if first.Some? && rest.Some? { ReplayConcat(m, Observe(node.current.db), first.value, rest.value); }
    }
  }

  /** One engine run: initialize the chain, then handle certificates. */
  function EngineRun(m: Machine, node: Node, certs: seq<Cert>): (Node, bool) {
    var (genesis, ok) := InitChain(m, node.current);
    var node1 := node.(current := genesis);
    if ok then HandleCerts(m, node1, certs) else (node1, false)
  }

  /** Genesis is visible only with the first block: before it the committed state is the initial one,
      from it on it is genesis followed by every transaction so far. */
  lemma RunCommitsReplay(m: Machine, node: Node, certs: seq<Cert>)
    requires node.lastBlockHeight == node.committed.height
    ensures var (node', ok) := EngineRun(m, node, certs);
            var genesis := GenesisView(m, Observe(node.current.db));
            && (ok <==> && genesis.Some? && AllTransactions(m, certs).Some?
                        && ReplayAll(m, genesis.value, AllTransactions(m, certs).value).Some?)
            && (ok ==>
                  && node'.committed.height == node'.lastBlockHeight == node.lastBlockHeight + |certs|
                  && (if certs == [] then node'.committed == node.committed
                      else ReplayAll(m, genesis.value, AllTransactions(m, certs).value)
                           == Some(Observe(node'.committed.db))))
  {
    InitChainObserved(m, node.current);
    CertsCommitReplay(m, node.(current := InitChain(m, node.current).0), certs);
  }

  /** Certificates that fail leave committed what those before the failing one committed, and the
      engine's height one ahead of that. */
  lemma {:induction false} FailureKeepsPrefix(m: Machine, node: Node, certs: seq<Cert>) returns (n: nat)
    requires !HandleCerts(m, node, certs).1
    ensures n < |certs| && HandleCerts(m, node, certs[..n]).1
    ensures HandleCerts(m, node, certs).0.committed == HandleCerts(m, node, certs[..n]).0.committed
    ensures HandleCerts(m, node, certs).0.lastBlockHeight == node.lastBlockHeight + n + 1
    decreases |certs|
  {
    var (node1, ok1) := HandleCert(m, node, certs[0]);
    if !ok1 {
      n := 0;
    } else {
      var k := FailureKeepsPrefix(m, node1, certs[1..]);
      n := k + 1;
      assert certs[..n][1..] == certs[1..][..k];
    }
  }

  /** An engine run that fails does so at genesis, with nothing committed, or at one of its
      certificates, with what the run of those before it commits. */
  lemma RunFailureKeepsPrefix(m: Machine, node: Node, certs: seq<Cert>) returns (n: nat)
    requires !EngineRun(m, node, certs).1
    ensures var node' := EngineRun(m, node, certs).0;
            if GenesisView(m, Observe(node.current.db)).None?
            then node'.committed == node.committed && node'.lastBlockHeight == node.lastBlockHeight
            else
              && n < |certs| && EngineRun(m, node, certs[..n]).1
              && node'.committed == EngineRun(m, node, certs[..n]).0.committed
              && node'.lastBlockHeight == node.lastBlockHeight + n + 1
  {
    n := 0;
    InitChainObserved(m, node.current);
    if InitChain(m, node.current).1 {
      n := FailureKeepsPrefix(m, node.(current := InitChain(m, node.current).0), certs);
    }
  }

  // ----- what a failed certificate leaves behind

  /** The transactions delivered before the first failure. */
  function DeliveredOf(m: Machine, st: State, raws: seq<Bytes>): seq<Bytes>
    decreases |raws|
  {
    if raws == [] then [] else
    var (st1, r) := Deliver(m, st, raws[0]);
    if r.Err? then [] else [raws[0]] + DeliveredOf(m, st1, raws[1..])
  }

  function Delivered(m: Machine, st: State, cert: Cert): seq<Bytes>
    decreases |cert.payload|
  {
    if cert.payload == [] || cert.payload[0] !in cert.worker then [] else
    match m.decodeBatch(cert.worker[cert.payload[0]])
    case None => []
    case Some(raws) =>
      var (st1, ok) := DeliverAll(m, st, raws);
      DeliveredOf(m, st, raws) + if ok then Delivered(m, st1, cert.(payload := cert.payload[1..])) else []
  }

  lemma {:induction false} DeliveredOfReplays(m: Machine, st: State, raws: seq<Bytes>)
    ensures ReplayAll(m, Observe(st.db), DeliveredOf(m, st, raws)) == Some(Observe(DeliverAll(m, st, raws).0.db))
    decreases |raws|
  {
    if raws != [] {
      DeliverReplays(m, st, raws[0]);
      var (st1, r) := Deliver(m, st, raws[0]);
      if r.Ok? {
        DeliveredOfReplays(m, st1, raws[1..]);
        var d := DeliveredOf(m, st1, raws[1..]);
        assert ([raws[0]] + d)[0] == raws[0] && ([raws[0]] + d)[1..] == d;
      }
    }
  }

  lemma {:induction false} DeliveredReplays(m: Machine, st: State, cert: Cert)
    ensures ReplayAll(m, Observe(st.db), Delivered(m, st, cert)) == Some(Observe(DeliverBatches(m, st, cert).0.db))
    decreases |cert.payload|
  {
    if cert.payload != [] && cert.payload[0] in cert.worker && m.decodeBatch(cert.worker[cert.payload[0]]).Some? {
      var raws := m.decodeBatch(cert.worker[cert.payload[0]]).value;
      var (st1, ok) := DeliverAll(m, st, raws);
      var rest := cert.(payload := cert.payload[1..]);
      DeliveredOfReplays(m, st, raws);
      if ok {
        DeliveredReplays(m, st1, rest);
        ReplayConcat(m, Observe(st.db), DeliveredOf(m, st, raws), Delivered(m, st1, rest));
      } else {
        assert DeliveredOf(m, st, raws) + [] == DeliveredOf(m, st, raws);
      }
    }
  }

  // ----- and when the next run shows it

  /** What a run leaves to see: whether it came through, and what its committed state shows. */
  datatype Outcome = Outcome(ok: bool, height: int, appHash: Bytes, view: View)

  /** Another engine connecting to the application as `node` has left it: it starts at the committed
      height, initializes the chain and handles its certificates. */
  function NextRun(m: Machine, node: Node, certs: seq<Cert>): Outcome {
    var (node', ok) := EngineRun(m, node.(lastBlockHeight := node.committed.height), certs);
    Outcome(ok, node'.committed.height, node'.committed.appHash, Observe(node'.committed.db))
  }

  /** The application after a certificate that failed. */
  function AfterFailure(m: Machine, node: Node, failing: Cert): Node {
    HandleCert(m, node, failing).0
  }

  /** The view the failed certificate leaves behind: the replay of what it delivered. */
  function LeftView(m: Machine, node: Node, failing: Cert): View {
    Observe(AfterFailure(m, node, failing).current.db)
  }

  lemma LeftViewReplays(m: Machine, node: Node, failing: Cert)
    requires !HandleCert(m, node, failing).1
    ensures ReplayAll(m, Observe(node.current.db), Delivered(m, node.current, failing))
            == Some(LeftView(m, node, failing))
  {
    DeliveredReplays(m, node.current, failing);
  }

  predicate LooksLike(a: Node, b: Node) {
    && Observe(a.current.db) == Observe(b.current.db)
    && Observe(a.committed.db) == Observe(b.committed.db)
    && a.committed.height == b.committed.height && a.committed.appHash == b.committed.appHash
    && a.lastBlockHeight == b.lastBlockHeight
  }

  lemma {:induction false} CertsDetermined(m: Machine, a: Node, b: Node, certs: seq<Cert>)
    requires LooksLike(a, b)
    ensures HandleCerts(m, a, certs).1 == HandleCerts(m, b, certs).1
    ensures var (a', b') := (HandleCerts(m, a, certs).0.committed, HandleCerts(m, b, certs).0.committed);
            a'.height == b'.height && a'.appHash == b'.appHash && Observe(a'.db) == Observe(b'.db)
    decreases |certs|
  {
    if certs != [] {
      HandleCertExactly(m, a, certs[0]);
      HandleCertExactly(m, b, certs[0]);
      if HandleCert(m, a, certs[0]).1 {
        CertsDetermined(m, HandleCert(m, a, certs[0]).0, HandleCert(m, b, certs[0]).0, certs[1..]);
      }
    }
  }

  lemma NoTransactions(m: Machine)
    ensures AllTransactions(m, [Cert([], map[])]) == Some([])
  {
    var certs := [Cert([], map[])];
    assert certs[1..] == [];
    assert Transactions(m, certs[0]) == Some([]) && AllTransactions(m, certs[1..]) == Some([]);
    var none: seq<Bytes> := [];
    assert none + none == none;
  }

  /** A failed certificate is not undone in the current state. Whatever certificates the next run
      handles, it shows what it would have shown without the failed one, if and only if genesis leads
      to the same view from what that one left behind. */
  lemma FailureInvisibleExactly(m: Machine, node: Node, failing: Cert)
    requires !HandleCert(m, node, failing).1
    ensures (forall certs :: NextRun(m, AfterFailure(m, node, failing), certs) == NextRun(m, node, certs))
       <==> GenesisView(m, LeftView(m, node, failing)) == GenesisView(m, Observe(node.current.db))
  {
    var failed := AfterFailure(m, node, failing);
    var a, b := failed.(lastBlockHeight := failed.committed.height), node.(lastBlockHeight := node.committed.height);
    InitChainObserved(m, a.current);
    InitChainObserved(m, b.current);
    if GenesisView(m, Observe(a.current.db)) == GenesisView(m, Observe(b.current.db)) {
      forall certs ensures NextRun(m, failed, certs) == NextRun(m, node, certs) {
        if GenesisView(m, Observe(a.current.db)).Some? {
          CertsDetermined(m, a.(current := InitChain(m, a.current).0), b.(current := InitChain(m, b.current).0), certs);
        }
      }
    } else {
      var certs := [Cert([], map[])];
      NoTransactions(m);
      RunCommitsReplay(m, a, certs);
      RunCommitsReplay(m, b, certs);
      assert NextRun(m, failed, certs) != NextRun(m, node, certs);
    }
  }

  /** What the next run commits on top of a failed certificate: genesis and its own blocks, replayed
      from the view the failed one left behind. */
  lemma NextRunCommitsLeftovers(m: Machine, node: Node, failing: Cert, certs: seq<Cert>)
    requires !HandleCert(m, node, failing).1 && certs != []
    ensures var next := NextRun(m, AfterFailure(m, node, failing), certs);
            var genesis := GenesisView(m, LeftView(m, node, failing));
            && (next.ok <==> && genesis.Some? && AllTransactions(m, certs).Some?
                             && ReplayAll(m, genesis.value, AllTransactions(m, certs).value).Some?)
            && (next.ok ==> ReplayAll(m, genesis.value, AllTransactions(m, certs).value) == Some(next.view))
  {
    var failed := AfterFailure(m, node, failing);
    RunCommitsReplay(m, failed.(lastBlockHeight := failed.committed.height), certs);
  }

  /** A certificate whose first batch is missing or malformed fails and leaves nothing behind. */
  lemma BadFirstBatchLeavesNothing(m: Machine, node: Node, failing: Cert, certs: seq<Cert>)
    requires failing.payload != []
    requires failing.payload[0] in failing.worker ==> m.decodeBatch(failing.worker[failing.payload[0]]).None?
    ensures !HandleCert(m, node, failing).1 && Delivered(m, node.current, failing) == []
    ensures NextRun(m, AfterFailure(m, node, failing), certs) == NextRun(m, node, certs)
  {
    assert LeftView(m, node, failing) == Observe(node.current.db);
    FailureInvisibleExactly(m, node, failing);
  }

  /** It does happen: the first batch holds one transaction, which opens an account; the second batch
      is missing. The next run, of one empty certificate, commits the account. */
  const WRITER := Machine(
    (v, tx) => Transact({}, Some((map[1 := Account(7, [])], []))),
    raw => Some(Tx(Create, [])),
    data => None,
    batch => Some([batch]),
    map[],
    [])

  const BLANK := Node(State(0, [], map[]), State(0, [], map[]), 0)

  const HALF_THERE := Cert([0, 1], map[0 := [5]])

  lemma LeftoversGetCommitted()
    ensures !HandleCert(WRITER, BLANK, HALF_THERE).1 && Delivered(WRITER, BLANK.current, HALF_THERE) == [[5]]
    ensures NextRun(WRITER, BLANK, [Cert([], map[])]) == Outcome(true, 1, [], map[])
    ensures NextRun(WRITER, AfterFailure(WRITER, BLANK, HALF_THERE), [Cert([], map[])])
            == Outcome(true, 1, [], map[1 := Account(7, [])])
  {
    var empty := [Cert([], map[])];
    NoTransactions(WRITER);
    var batch: Bytes := [5];
    var raws := [batch];
    assert raws[1..] == [];
    var after := State(0, [], map[1 := Account(7, [])]);
    assert Deliver(WRITER, BLANK.current, batch).0 == after by {
      assert Touch(map[], {}) + map[1 := Account(7, [])] == map[1 := Account(7, [])];
    }
    assert DeliverAll(WRITER, BLANK.current, raws) == (after, true);
    assert HALF_THERE.payload[1..] == [1];
    assert DeliverBatches(WRITER, BLANK.current, HALF_THERE) == (after, false);
    assert DeliveredOf(WRITER, BLANK.current, raws) == raws;
    assert raws + [] == raws;
    assert Observe(after.db) == map[1 := Account(7, [])] && Observe(BLANK.current.db) == map[];
    assert Observe(map[] + map[]) == map[] && Observe(map[1 := Account(7, [])] + map[]) == map[1 := Account(7, [])];
    NextRunCommitsLeftovers(WRITER, BLANK, HALF_THERE, empty);
    RunCommitsReplay(WRITER, BLANK, empty);
  }
}
