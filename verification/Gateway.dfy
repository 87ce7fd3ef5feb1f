/**
 * The worker's command handlers over the heap cache
 * (crates/ursa-gateway/src/worker/mod.rs:34-76, worker/cache/worker.rs:19-37, worker/cache/admin.rs).
 */
module Gateway {
  import opened Prelude
  import opened CacheModel
  import opened Worker
  import CacheInvariant
  import CacheReference
  import Tlrfu

  /** How often a run raises the stop signal. */
  function SignalCount(c: Cache, cmds: seq<Command>): nat {
    if cmds == [] then 0 else SignalCount(c, Front(cmds)) + if Signals(c, cmds) then 1 else 0
  }

  class CacheWorker {
    const cache: Tlrfu.Tlrfu
    /** How often the stop signal was sent. */
    var signals: nat

    ghost predicate Valid()
      reads this, cache, cache.Repr
    {
      cache.Valid() && this !in cache.Repr
    }

    constructor (maxSize: nat, ttlBuf: nat)
      ensures Valid() && fresh(cache) && fresh(cache.Repr)
      ensures cache.Abs() == Empty(maxSize, ttlBuf) && signals == 0
    {
      cache := new Tlrfu.Tlrfu(maxSize, ttlBuf);
      signals := 0;
    }

    /** Handling a command under the write lock is one step of the worker. */
    method Handle(cmd: Command)
      requires Valid()
      modifies this, cache, cache.Repr
      ensures Valid() && fresh(cache.Repr - old(cache.Repr))
      ensures cache.Abs() == Step(old(cache.Abs()), cmd).0
      ensures signals == old(signals) + if Step(old(cache.Abs()), cmd).1 then 1 else 0
    {
      hide Get, Insert, CleanUp, Lru.List.Valid;
      var failed := false;
      match cmd {
        case GetSync(k, now) =>
          var r := cache.Get(k, now);
          failed := r.Err?;
        case InsertSync(k, v, now) =>
          if k !in cache.store {
            var r := cache.Insert(k, v, now);
            failed := r.Err?;
          }
        case TtlCleanUp(clock) =>
          var r := cache.ProcessTtlCleanUp(clock);
          failed := r.Err?;
        case PurgeCache =>
          cache.Purge();
      }
      if failed { signals := signals + 1; }
    }

    /** The command loop: a run of the model, signal by signal. */
    method Drive(cmds: seq<Command>)
      requires Valid()
      modifies this, cache, cache.Repr
      ensures Valid() && fresh(cache.Repr - old(cache.Repr))
      ensures cache.Abs() == Run(old(cache.Abs()), cmds)
      ensures signals == old(signals) + SignalCount(old(cache.Abs()), cmds)
    {
      hide Step, Tlrfu.Tlrfu.Valid, Tlrfu.Tlrfu.Abs;
      for i := 0 to |cmds|
        invariant Valid() && fresh(cache.Repr - old(cache.Repr))
        invariant cache.Abs() == Run(old(cache.Abs()), cmds[..i])
        invariant signals == old(signals) + SignalCount(old(cache.Abs()), cmds[..i])
      {
        assert Front(cmds[..i + 1]) == cmds[..i] && Last(cmds[..i + 1]) == cmds[i];
        Handle(cmds[i]);
      }
      assert cmds[..|cmds|] == cmds;
    }
  }

  ghost predicate NoneBeforeEpoch(cmds: seq<Command>) {
    forall cmd :: cmd in cmds && cmd.InsertSync? ==> cmd.now >= 0
  }

  /** From its construction on, the heap worker refines the simple cache: in full over every run whose
      gets and insertions read different instants after the epoch, and up to deadlines over every run
      whose insertions read instants after the epoch. */
  method Serve(maxSize: nat, ttlBuf: nat, cmds: seq<Command>) returns (w: CacheWorker)
    ensures fresh(w) && w.Valid()
    ensures Ticking(cmds) ==>
              && CacheInvariant.Inv(w.cache.Abs())
              && exists s :: SimpleReaches(maxSize, ttlBuf, cmds, s) && CacheReference.Refines(w.cache.Abs(), s)
    ensures NoneBeforeEpoch(cmds) ==>
              && CacheInvariant.Core(w.cache.Abs())
              && exists s :: LooselyReaches(maxSize, ttlBuf, cmds, s) && CacheReference.Refines(w.cache.Abs(), s)
    ensures w.signals == SignalCount(Empty(maxSize, ttlBuf), cmds)
  {
    hide CacheInvariant.Inv, CacheInvariant.Core, CacheReference.Refines, SimpleReaches, LooselyReaches, Run, Ticking;
    w := new CacheWorker(maxSize, ttlBuf);
    w.Drive(cmds);
    if Ticking(cmds) {
      TickingIsClean(maxSize, ttlBuf, cmds);
      ghost var s := RunRefines(maxSize, ttlBuf, cmds);
    }
    if NoneBeforeEpoch(cmds) {
      ghost var s := EveryRunRefines(maxSize, ttlBuf, cmds);
    }
  }
}
