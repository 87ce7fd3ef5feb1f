/**
 * Execution of transactions against the application's account database
 * (crates/ursa-application/src/types.rs:57-94). The EVM is a function of the observable accounts
 * that cannot be seen from here; the database is a cache that also remembers failed look-ups.
 */
module Evm {
  import opened Prelude

  type Address = nat

  datatype Account = Absent | Account(balance: nat, data: Bytes)

  /** The cache database: an address may be cached as absent. */
  type Db = map<Address, Account>

  /** What can be observed of a database: the accounts that exist. */
  type View = map<Address, Account>

  function Observe(db: Db): View {
    map a | a in db && db[a] != Absent :: db[a]
  }

  /** Looking addresses up caches the absent ones. */
  function Touch(db: Db, touched: set<Address>): Db {
    db + map a | a in touched && a !in db :: Absent
  }

  datatype Target = ToAddress(address: Address) | ToName | Create

  datatype Tx = Tx(target: Target, payload: Bytes)

  /** One run of the EVM: the addresses it looked up and, if it succeeds, its changes and result. */
  datatype Transact = Transact(touched: set<Address>, outcome: Option<(map<Address, Account>, Bytes)>)

  datatype Query = EthCall(tx: Tx) | Balance(address: Address)

  /** The parts of the application that are functions given from outside. */
  datatype Machine = Machine(
    transact: (View, Tx) -> Transact,
    decodeTx: Bytes -> Option<Tx>,
    decodeQuery: Bytes -> Option<Query>,
    decodeBatch: Bytes -> Option<seq<Bytes>>,
    contracts: map<Address, Account>,
    initTxs: seq<Tx>)

  datatype ExecError = NotAllowed | TransactFailed

  function Execute(m: Machine, db: Db, tx: Tx, readOnly: bool): (Db, Result<Bytes, ExecError>) {
    if tx.target.ToName? then (db, Err(NotAllowed)) else
    var run := m.transact(Observe(db), tx);
    var warmed := Touch(db, run.touched);
    match run.outcome
    case None => (warmed, Err(TransactFailed))
    case Some((changes, result)) => (if readOnly then warmed else warmed + changes, Ok(result))
  }

  // ----- the same on observations only

  /** The observable effect of a transaction; None when it cannot be executed. */
  function Effect(m: Machine, v: View, tx: Tx): Option<(View, Bytes)> {
    if tx.target.ToName? then None else
    match m.transact(v, tx).outcome
    case None => None
    case Some((changes, result)) => Some((Observe(v + changes), result))
  }

  lemma TouchUnobservable(db: Db, touched: set<Address>)
    ensures Observe(Touch(db, touched)) == Observe(db)
  {
  }

  /** Execution acts on what is observable: its result and its effect are those of the view, a failed
      or read-only one has no effect, and cached look-ups never show. */
  lemma ExecuteObserved(m: Machine, db: Db, tx: Tx, readOnly: bool)
    ensures var (db', r) := Execute(m, db, tx, readOnly);
            match Effect(m, Observe(db), tx)
            case None =>
              && r == Err(if tx.target.ToName? then NotAllowed else TransactFailed)
              && Observe(db') == Observe(db)
            case Some((v, result)) => r == Ok(result) && Observe(db') == if readOnly then Observe(db) else v
  {
    var run := m.transact(Observe(db), tx);
    TouchUnobservable(db, run.touched);
    if run.outcome.Some? {
      var changes := run.outcome.value.0;
      assert Observe(Touch(db, run.touched) + changes) == Observe(Observe(db) + changes);
    }
  }
}
