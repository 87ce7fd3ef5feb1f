/**
 * The application's two locked states and the engine that drives them, as objects
 * (crates/ursa-application/src/types.rs, crates/ursa-consensus/src/engine.rs). Each method does what
 * its function in module Abci says; the nested loops over batches and transactions are the source's.
 */
module AbciEngine {
  import opened Prelude
  import opened Evm
  import A = Abci
  import Q = AbciQueries

  class App {
    var current: A.State
    var committed: A.State

    constructor (state: A.State)
      ensures current == state && committed == state
    {
      current, committed := state, state;
    }

    method InitChain(m: Machine) returns (ok: bool)
      modifies this`current
      ensures (current, ok) == A.InitChain(m, old(current))
    {
      var db := current.db + m.contracts;
      current := current.(db := db);
      for i := 0 to |m.initTxs|
        invariant current == old(current).(db := current.db)
        invariant A.ExecuteAll(m, current.db, m.initTxs[i..]) == A.ExecuteAll(m, db, m.initTxs)
      {
        var (db', r) := Execute(m, current.db, m.initTxs[i], false);
        assert m.initTxs[i..][1..] == m.initTxs[i + 1..];
        current := current.(db := db');
        if r.Err? { return false; }
      }
      return true;
    }

    method DeliverTx(m: Machine, raw: Bytes) returns (r: Result<Option<Bytes>, A.Panic>)
      modifies this`current
      ensures (current, r) == A.Deliver(m, old(current), raw)
    {
      var decoded := m.decodeTx(raw);
      if decoded.None? { return Ok(None); }
      var tx := decoded.value;
      if tx.target.ToName? { return Err(A.NotAnAddress); }
      var (db, result) := Execute(m, current.db, tx, false);
      current := current.(db := db);
      if result.Err? { return Err(A.ExecutionFailed); }
      return Ok(Some(result.value));
    }

    method EndBlock(height: int)
      modifies this`current
      ensures current == old(current).(height := height, appHash := [])
    {
      current := current.(height := height);
      current := current.(appHash := []);
    }

    method Info() returns (height: int, appHash: Bytes)
      ensures height == committed.height && appHash == committed.appHash
    {
      return committed.height, committed.appHash;
    }

    /** Queries run on the committed state; what they look up stays cached there. */
    method Query(m: Machine, data: Bytes) returns (r: Q.Response)
      modifies this`committed
      ensures (committed, r) == Q.Answer(m, old(committed), Q.QueryReq(data))
    {
      var decoded := m.decodeQuery(data);
      if decoded.None? { return Q.CouldNotDecode; }
      match decoded.value {
        case EthCall(tx) =>
          if !tx.target.ToAddress? { return Q.Panicked; }
          var (db, result) := Execute(m, committed.db, tx, true);
          committed := committed.(db := db);
          if result.Err? { return Q.Panicked; }
          return Q.TxResult(result.value);
        case Balance(a) =>
          committed := committed.(db := Touch(committed.db, {a}));
          return Q.BalanceOf(if committed.db[a].Account? then committed.db[a].balance else 0);
      }
    }

    method Commit()
      modifies this`committed
      ensures committed == current
    {
      committed := current;
    }
  }

  class Engine {
    const app: App
    var lastBlockHeight: int

    /** The engine starts at the height the application's `info` reports. */
    constructor (app: App)
      ensures this.app == app && lastBlockHeight == app.committed.height
    {
      this.app := app;
      lastBlockHeight := app.committed.height;
    }

    ghost function Abs(): A.Node
      reads this, app
    {
      A.Node(app.current, app.committed, lastBlockHeight)
    }

    method DeliverBatch(m: Machine, batch: Bytes) returns (ok: bool)
      modifies app`current
      ensures (app.current, ok) == match m.decodeBatch(batch)
                                   case None => (old(app.current), false)
                                   case Some(raws) => A.DeliverAll(m, old(app.current), raws)
    {
      var decoded := m.decodeBatch(batch);
      if decoded.None? { return false; }
      var raws := decoded.value;
      for i := 0 to |raws|
        invariant A.DeliverAll(m, app.current, raws[i..]) == A.DeliverAll(m, old(app.current), raws)
      {
        assert raws[i..][1..] == raws[i + 1..];
        var r := app.DeliverTx(m, raws[i]);
        if r.Err? { return false; }
      }
      return true;
    }

    /** First all batches are read, found or not; then they are delivered until one fails. */
    method ReconstructAndDeliverTxs(m: Machine, cert: A.Cert) returns (ok: bool)
      modifies app`current
      ensures (app.current, ok) == A.DeliverBatches(m, old(app.current), cert)
    {
      var batches := seq(|cert.payload|, i requires 0 <= i < |cert.payload| =>
        if cert.payload[i] in cert.worker then Some(cert.worker[cert.payload[i]]) else None);
      for i := 0 to |batches|
        invariant A.DeliverBatches(m, app.current, cert.(payload := cert.payload[i..]))
                  == A.DeliverBatches(m, old(app.current), cert)
      {
        assert cert.payload[i..][1..] == cert.payload[i + 1..];
        if batches[i].None? { return false; }
        var delivered := DeliverBatch(m, batches[i].value);
        if !delivered { return false; }
      }
      return true;
    }

    method HandleCert(m: Machine, cert: A.Cert) returns (ok: bool)
      modifies this`lastBlockHeight, app
      ensures (Abs(), ok) == A.HandleCert(m, old(Abs()), cert)
    {
      var proposed := lastBlockHeight + 1;
      lastBlockHeight := proposed;
      A.DeliverBatchesReplays(m, app.current, cert);
      ok := ReconstructAndDeliverTxs(m, cert);
      if !ok { return; }
      app.EndBlock(proposed);
      app.Commit();
    }

    /** The certificate arm of `run`, up to the first failure. */
    method Run(m: Machine, certs: seq<A.Cert>) returns (ok: bool)
      modifies this`lastBlockHeight, app
      ensures (Abs(), ok) == A.EngineRun(m, old(Abs()), certs)
    {
      ok := app.InitChain(m);
      if !ok { return; }
      ghost var start := Abs();
      for i := 0 to |certs|
        invariant A.HandleCerts(m, Abs(), certs[i..]) == A.HandleCerts(m, start, certs)
      {
        assert certs[i..][1..] == certs[i + 1..];
        ok := HandleCert(m, certs[i]);
        if !ok { return; }
      }
      return true;
    }
  }
}
