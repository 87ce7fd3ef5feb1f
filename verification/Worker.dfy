/**
 * The gateway worker: cache commands as steps on the locked cache
 * (crates/ursa-gateway/src/worker/mod.rs:34-76, worker/cache/worker.rs:19-37), and what holds over
 * every run of commands. `Fetch` does not touch the cache and is not a step.
 */
module Worker {
  import opened Prelude
  import opened Lru
  import opened CacheModel
  import opened CacheInvariant
  import opened CacheReference

  datatype Command =
    | GetSync(key: Key, now: int)
    | InsertSync(key: Key, value: Bytes, now: int)
    | TtlCleanUp(clock: nat -> int)
    | PurgeCache

  /** The cache after a command, and whether the worker raises its stop signal. */
  function Step(c: Cache, cmd: Command): (Cache, bool) {
    match cmd
    case GetSync(k, now) =>
      var (c', r) := Get(c, k, now); (c', r.Err?)
    case InsertSync(k, v, now) =>
      if k in c.store then (c, false) else var (c', r) := Insert(c, k, v, now); (c', r.Err?)
    case TtlCleanUp(clock) =>
      var (c', r) := CleanUp(c, clock, 0); (c', r.Err?)
    case PurgeCache => (Purge(c), false)
  }

  /** What a command needs of the clock to leave the indexes agreeing: for a hit or an insertion, a
      reading after the epoch and a deadline that no other surviving entry holds. */
  ghost predicate Clean(c: Cache, cmd: Command) {
    match cmd
    case GetSync(k, now) => GetClean(c, k, now)
    case InsertSync(k, v, now) => InsertClean(c, k, v, now)
    case TtlCleanUp(clock) => true
    case PurgeCache => true
  }

  ghost function ItemDates(items: map<Key, Item>): map<Key, nat> {
    map k | k in items :: items[k].deadline
  }

  /** A step of the simple cache. A clean-up removes the items with the earliest deadlines, one per
      clock reading that finds one more item due, up to the first reading that does not. */
  ghost predicate SimpleStep(s: Simple, maxSize: nat, ttlBuf: nat, cmd: Command, s': Simple) {
    match cmd
    case GetSync(k, now) =>
      if k !in s.items then s' == s
      else now >= 0 && s' == Simple(s.items[k := Item(s.items[k].value, now + ttlBuf)], s.log + [Hit(k)])
    case InsertSync(k, v, now) =>
      if k in s.items then s' == s
      else if |v| > maxSize then s' == s.(items := map[])
      else now >= 0 && exists victims ::
        && ShortestPrefix(s, |v|, maxSize, victims)
        && s' == Simple((s.items - AsSet(victims))[k := Item(v, now + ttlBuf)], s.log + [Inserted(k)])
    case TtlCleanUp(clock) =>
      && s' == s.(items := s'.items)
      && (forall k :: k in s'.items ==> k in s.items && s'.items[k] == s.items[k])
      && exists n :: CleanedAt(ItemDates(s.items), ItemDates(s'.items), clock, 0, n)
    case PurgeCache => s' == s.(items := map[])
  }

  // ----- one step

  lemma AccessRefines(c: Cache, s: Simple, k: Key, e: Entry, a: Access, c': Cache)
    requires Refines(c, s) && c'.store == c.store[k := e] && Newest(c'.store, k)
    requires a.key == k && e.freq == if a.Inserted? then 1 else 1 + Uses(s.log, k)
    ensures Refines(c', Simple(s.items[k := Item(e.value, e.ttl)], s.log + [a]))
  {
    hide Uses, LastUse;
    var s' := Simple(s.items[k := Item(e.value, e.ttl)], s.log + [a]);
    forall j ensures Uses(s'.log, j) == (if j == k then e.freq else Uses(s.log, j))
                  && LastUse(s'.log, j) == if j == k then |s.log| else LastUse(s.log, j) {
      LogGrows(s.log, a, j);
    }
  }

  lemma GetRefines(c: Cache, s: Simple, k: Key, now: int) returns (s': Simple)
    requires Inv(c) && Refines(c, s) && GetClean(c, k, now)
    ensures SimpleStep(s, c.maxSize, c.ttlBuf, GetSync(k, now), s') && Refines(Get(c, k, now).0, s')
  {
    hide BucketsAgree, DeadlinesAgree, TotalSize, Get;
    s' := s;
    GetKeepsInv(c, k, now);
    if k in c.store {
      var c' := Get(c, k, now).0;
      s' := Simple(s.items[k := Item(s.items[k].value, now + c.ttlBuf)], s.log + [Hit(k)]);
      AccessRefines(c, s, k, c'.store[k], Hit(k), c');
    }
  }

  lemma InsertRefines(c: Cache, s: Simple, k: Key, v: Bytes, now: int) returns (s': Simple)
    requires Core(c) && Refines(c, s) && k !in c.store && (|v| <= c.maxSize ==> now >= 0)
    ensures SimpleStep(s, c.maxSize, c.ttlBuf, InsertSync(k, v, now), s') && Refines(Insert(c, k, v, now).0, s')
  {
    hide Core, Refines, Insert, Evict, ShortestPrefix, Newest, Size, TotalSize;
    SizeAgrees(c, s);
    InsertKeepsCore(c, k, v, now);
    EvictKeepsCore(c, |v|);
    var c' := Insert(c, k, v, now).0;
    if |v| > c.maxSize {
      s' := s.(items := map[]);
      assert c'.store == c.store - s.items.Keys && s.items - s.items.Keys == map[];
      RefinesRemoval(c, s, c', s.items.Keys);
    } else {
      var victims := EvictsShortestPrefix(c, s, |v|);
      var left := s.(items := s.items - AsSet(victims));
      RefinesRemoval(c, s, Evict(c, |v|).0, AsSet(victims));
      s' := Simple(left.items[k := Item(v, now + c.ttlBuf)], s.log + [Inserted(k)]);
      AccessRefines(Evict(c, |v|).0, left, k, c'.store[k], Inserted(k), c');
    }
  }

  lemma CleanUpRefines(c: Cache, s: Simple, clock: nat -> int) returns (s': Simple)
    requires Inv(c) && Refines(c, s)
    ensures SimpleStep(s, c.maxSize, c.ttlBuf, TtlCleanUp(clock), s') && Refines(CleanUp(c, clock, 0).0, s')
  {
    hide Inv, CleanUp, CleanedAt, Uses, LastUse;
    var n := CleanUpAnyClock(c, clock, 0);
    var c' := CleanUp(c, clock, 0).0;
    var gone := set k | k in c.store && k !in c'.store;
    s' := s.(items := s.items - gone);
    assert c'.store == c.store - gone;
    RefinesRemoval(c, s, c', gone);
    assert ItemDates(s.items) == DueDates(c.store) && ItemDates(s'.items) == DueDates(c'.store);
  }

  /** A clean-up meets a reading before the epoch while an entry is left. */
  ghost predicate ReadsBeforeEpoch(c: Cache, clock: nat -> int) {
    exists n :: 0 <= n < |c.store| && clock(n) < 0 && StopsAt(DueDates(c.store), clock, 0, n)
  }

  /** Why the worker raises its stop signal. */
  ghost predicate Stops(c: Cache, cmd: Command) {
    match cmd
    case GetSync(k, now) => k in c.store && now < 0
    case InsertSync(k, v, now) => k !in c.store && (|v| > c.maxSize || now < 0)
    case TtlCleanUp(clock) => ReadsBeforeEpoch(c, clock)
    case PurgeCache => false
  }

  lemma CleanUpStops(c: Cache, clock: nat -> int)
    requires Inv(c)
    ensures CleanUp(c, clock, 0).1.Err? <==> ReadsBeforeEpoch(c, clock)
  {
    hide Inv, CleanUp, GoesOn;
    var j := CleanUpAnyClock(c, clock, 0);
    var c' := CleanUp(c, clock, 0).0;
    assert DueDates(c.store).Keys == c.store.Keys && DueDates(c'.store).Keys == c'.store.Keys;
    assert |c.store| == |c.store.Keys| && |c'.store| == |c'.store.Keys|;
    assert j == |c.store| - |c'.store|;
    assert forall n: nat :: StopsAt(DueDates(c.store), clock, 0, n) ==> n == j;
  }

  /** Every command keeps the indexes agreeing and is a step of the simple cache. */
  lemma StepRefines(c: Cache, s: Simple, cmd: Command) returns (s': Simple)
    requires Inv(c) && Refines(c, s) && Clean(c, cmd)
    ensures Inv(Step(c, cmd).0) && Refines(Step(c, cmd).0, s')
    ensures SimpleStep(s, c.maxSize, c.ttlBuf, cmd, s')
    ensures Step(c, cmd).1 <==> Stops(c, cmd)
    ensures Step(c, cmd).0.maxSize == c.maxSize && Step(c, cmd).0.ttlBuf == c.ttlBuf
  {
    hide BucketsAgree, DeadlinesAgree, TotalSize, Refines, SimpleStep, Evict, ReadsBeforeEpoch;
    match cmd
    case GetSync(k, now) =>
      GetKeepsInv(c, k, now);
      s' := GetRefines(c, s, k, now);
    case InsertSync(k, v, now) =>
      if k in c.store {
        s' := s;
        InsertOfPresent(c, s, k, v, now);
      } else {
        InsertKeepsInv(c, k, v, now);
        EvictKeepsInv(c, |v|);
        s' := InsertRefines(c, s, k, v, now);
      }
    case TtlCleanUp(clock) =>
      CleanUpKeepsInv(c, clock, 0);
      CleanUpStops(c, clock);
      s' := CleanUpRefines(c, s, clock);
    case PurgeCache =>
      s' := s.(items := map[]);
      PurgeRefines(c, s);
  }

  /** Exactly when a command leaves the indexes agreeing, and exactly when it raises the stop signal:
      for an absent key with a value larger than the cache, or on a reading before the epoch. No
      internal "not found" or "existed" error is among the reasons. */
  lemma StepExactly(c: Cache, cmd: Command)
    requires Inv(c)
    ensures Inv(Step(c, cmd).0) <==> Clean(c, cmd)
    ensures Step(c, cmd).1 <==> Stops(c, cmd)
  {
    hide BucketsAgree, DeadlinesAgree, TotalSize, Evict, ReadsBeforeEpoch;
    match cmd
    case GetSync(k, now) => GetKeepsInv(c, k, now);
    case InsertSync(k, v, now) => InsertKeepsInv(c, k, v, now);
    case TtlCleanUp(clock) =>
      CleanUpKeepsInv(c, clock, 0);
      CleanUpStops(c, clock);
    case PurgeCache => PurgeRefines(c, Simple(map[], []));
  }

  lemma InsertOfPresent(c: Cache, s: Simple, k: Key, v: Bytes, now: int)
    requires Refines(c, s) && k in c.store
    ensures SimpleStep(s, c.maxSize, c.ttlBuf, InsertSync(k, v, now), s)
  {
  }

  lemma PurgeRefines(c: Cache, s: Simple)
    ensures Inv(Purge(c)) && Refines(Purge(c), s.(items := map[]))
    ensures SimpleStep(s, c.maxSize, c.ttlBuf, PurgeCache, s.(items := map[]))
  {
  }

  // ----- whole runs (every prefix of a run is a run, so a law of runs holds all along)

  /** The cache after a run. */
  function Run(c: Cache, cmds: seq<Command>): Cache {
    if cmds == [] then c else Step(Run(c, Front(cmds)), Last(cmds)).0
  }

  /** Whether the last command of a run raises the stop signal. */
  function Signals(c: Cache, cmds: seq<Command>): bool
    requires cmds != []
  {
    Step(Run(c, Front(cmds)), Last(cmds)).1
  }

  ghost predicate CleanRun(c: Cache, cmds: seq<Command>) {
    cmds != [] ==> CleanRun(c, Front(cmds)) && Clean(Run(c, Front(cmds)), Last(cmds))
  }

  /** The simple cache can be in state `s` after the run. */
  ghost predicate SimpleReaches(maxSize: nat, ttlBuf: nat, cmds: seq<Command>, s: Simple) {
    if cmds == [] then s == Simple(map[], [])
    else exists s0 :: SimpleReaches(maxSize, ttlBuf, Front(cmds), s0) && SimpleStep(s0, maxSize, ttlBuf, Last(cmds), s)
  }

  /** Over every run of commands from the empty cache, the three indexes agree, the cache refines the
      simple cache, and the stop signal is raised for the stated reasons and no others. */
  lemma {:induction false} RunRefines(maxSize: nat, ttlBuf: nat, cmds: seq<Command>) returns (s: Simple)
    requires CleanRun(Empty(maxSize, ttlBuf), cmds)
    ensures SimpleReaches(maxSize, ttlBuf, cmds, s)
    ensures var c := Run(Empty(maxSize, ttlBuf), cmds);
            Inv(c) && Refines(c, s) && c.maxSize == maxSize && c.ttlBuf == ttlBuf
    ensures cmds != [] ==>
              (Signals(Empty(maxSize, ttlBuf), cmds) <==> Stops(Run(Empty(maxSize, ttlBuf), Front(cmds)), Last(cmds)))
  {
    if cmds == [] {
      s := Simple(map[], []);
      PurgeRefines(Empty(maxSize, ttlBuf), s);
    } else {
      hide Inv, Refines, Step, SimpleStep, Empty, Clean, Stops, Front, Last;
      var s0 := RunRefines(maxSize, ttlBuf, Front(cmds));
      s := StepRefines(Run(Empty(maxSize, ttlBuf), Front(cmds)), s0, Last(cmds));
    }
  }

  // ----- different readings are enough

  predicate SetsDeadline(cmd: Command) {
    cmd.GetSync? || cmd.InsertSync?
  }

  /** No get or insertion reads the clock before the epoch, and no two of them read the same instant;
      otherwise the clock may go back as it likes. */
  ghost predicate Ticking(cmds: seq<Command>) {
    && (forall i :: 0 <= i < |cmds| && SetsDeadline(cmds[i]) ==> cmds[i].now >= 0)
    && (forall i, j :: 0 <= i < j < |cmds| && SetsDeadline(cmds[i]) && SetsDeadline(cmds[j]) ==>
          cmds[i].now != cmds[j].now)
  }

  ghost predicate SetBy(cmds: seq<Command>, ttlBuf: nat, d: nat) {
    exists cmd :: cmd in cmds && SetsDeadline(cmd) && d == cmd.now + ttlBuf
  }

  lemma StepDeadlines(c: Cache, cmd: Command, d: nat)
    requires Inv(c) && Clean(c, cmd) && d in Step(c, cmd).0.ttl
    ensures d in c.ttl || (SetsDeadline(cmd) && d == cmd.now + c.ttlBuf)
  {
    hide BucketsAgree, TotalSize, Evict, Get, Insert, CleanUp;
    StepExactly(c, cmd);
    match cmd
    case GetSync(k, now) => GetKeepsInv(c, k, now);
    case InsertSync(k, v, now) =>
      InsertKeepsInv(c, k, v, now);
      EvictKeepsInv(c, |v|);
    case TtlCleanUp(clock) => var _ := CleanUpAnyClock(c, clock, 0);
    case PurgeCache =>
  }

  lemma FreshReading(c: Cache, cmds: seq<Command>)
    requires Inv(c) && cmds != [] && Ticking(cmds)
    requires forall d :: d in c.ttl ==> SetBy(Front(cmds), c.ttlBuf, d)
    ensures Clean(c, Last(cmds))
  {
    hide BucketsAgree, TotalSize, Evict;
    var cmd := Last(cmds);
    if SetsDeadline(cmd) {
      assert !SetBy(Front(cmds), c.ttlBuf, cmd.now + c.ttlBuf);
      if cmd.InsertSync? {
        EvictKeepsInv(c, |cmd.value|);
      }
    }
  }

  lemma TickingFront(cmds: seq<Command>)
    requires Ticking(cmds) && cmds != []
    ensures Ticking(Front(cmds))
  {
  }

  lemma EmptyHasNoDeadlines(maxSize: nat, ttlBuf: nat)
    ensures Empty(maxSize, ttlBuf).ttl == map[]
  {
  }

  lemma OneMoreTick(c: Cache, cmds: seq<Command>)
    requires Inv(c) && cmds != [] && Clean(c, Last(cmds))
    requires forall d :: d in c.ttl ==> SetBy(Front(cmds), c.ttlBuf, d)
    ensures forall d :: d in Step(c, Last(cmds)).0.ttl ==> SetBy(cmds, c.ttlBuf, d)
  {
    hide Inv, Step, Clean;
    assert Last(cmds) in cmds && forall cmd :: cmd in Front(cmds) ==> cmd in cmds;
    forall d | d in Step(c, Last(cmds)).0.ttl ensures SetBy(cmds, c.ttlBuf, d) {
      StepDeadlines(c, Last(cmds), d);
    }
  }

  /** When no two gets or insertions read the same instant, every command of every run is clean. */
  lemma {:induction false} TickingIsClean(maxSize: nat, ttlBuf: nat, cmds: seq<Command>)
    requires Ticking(cmds)
    ensures CleanRun(Empty(maxSize, ttlBuf), cmds)
    ensures forall d :: d in Run(Empty(maxSize, ttlBuf), cmds).ttl ==> SetBy(cmds, ttlBuf, d)
  {
    hide Inv, Step, Clean, Ticking, Empty, Refines, SimpleReaches, SetBy;
    EmptyHasNoDeadlines(maxSize, ttlBuf);
    if cmds != [] {
      TickingFront(cmds);
      TickingIsClean(maxSize, ttlBuf, Front(cmds));
      var _ := RunRefines(maxSize, ttlBuf, Front(cmds));
      var c := Run(Empty(maxSize, ttlBuf), Front(cmds));
      FreshReading(c, cmds);
      OneMoreTick(c, cmds);
    }
  }

  // ----- whatever readings coincide

  /** What a command needs of the clock for buckets and sizes to stay in agreement: only that a value
      is not admitted before the epoch. */
  predicate CoreClean(c: Cache, cmd: Command) {
    cmd.InsertSync? && cmd.key !in c.store && |cmd.value| <= c.maxSize ==> cmd.now >= 0
  }

  /** A step of the simple cache in which deadlines may go wrong: a hit may fail to renew one, and a
      clean-up may take other items than those due. Values, accesses and evictions are as they should. */
  ghost predicate LooseStep(s: Simple, maxSize: nat, ttlBuf: nat, cmd: Command, s': Simple) {
    match cmd
    case GetSync(k, now) =>
      if k !in s.items then s' == s
      else exists d :: (d == s.items[k].deadline || d == now + ttlBuf)
                       && s' == Simple(s.items[k := Item(s.items[k].value, d)], s.log + [Hit(k)])
    case TtlCleanUp(_) => exists gone :: s' == s.(items := s.items - gone)
    case _ => SimpleStep(s, maxSize, ttlBuf, cmd, s')
  }

  lemma LooseGet(c: Cache, s: Simple, k: Key, now: int) returns (s': Simple)
    requires Core(c) && Refines(c, s)
    ensures LooseStep(s, c.maxSize, c.ttlBuf, GetSync(k, now), s') && Refines(Get(c, k, now).0, s')
  {
    hide Core, Get;
    s' := s;
    if k in c.store {
      GetKeepsCore(c, k, now);
      var c' := Get(c, k, now).0;
      s' := Simple(s.items[k := Item(s.items[k].value, c'.store[k].ttl)], s.log + [Hit(k)]);
      AccessRefines(c, s, k, c'.store[k], Hit(k), c');
    } else {
      Miss(c, k, now);
    }
  }

  lemma LooseCleanUp(c: Cache, s: Simple, clock: nat -> int) returns (s': Simple)
    requires Core(c) && Refines(c, s)
    ensures LooseStep(s, c.maxSize, c.ttlBuf, TtlCleanUp(clock), s') && Refines(CleanUp(c, clock, 0).0, s')
  {
    hide Core, CleanUp, Refines, LooseStep;
    CleanUpKeepsCore(c, clock, 0);
    var c' := CleanUp(c, clock, 0).0;
    var gone := c.store.Keys - c'.store.Keys;
    s' := s.(items := s.items - gone);
    Survivors(c.store, c'.store);
    RefinesRemoval(c, s, c', gone);
    Taken(s, c.maxSize, c.ttlBuf, clock, gone);
  }

  lemma Survivors(store: map<Key, Entry>, store': map<Key, Entry>)
    requires forall k :: k in store' ==> k in store && store'[k] == store[k]
    ensures store' == store - (store.Keys - store'.Keys)
  {
  }

  lemma Taken(s: Simple, maxSize: nat, ttlBuf: nat, clock: nat -> int, gone: set<Key>)
    ensures LooseStep(s, maxSize, ttlBuf, TtlCleanUp(clock), s.(items := s.items - gone))
  {
  }

  /** On any cache whose buckets and sizes agree: exactly when they still do after a command, and
      exactly when a hit or an insertion raises the stop signal. */
  lemma CoreStepExactly(c: Cache, cmd: Command)
    requires Core(c)
    ensures Core(Step(c, cmd).0) <==> CoreClean(c, cmd)
    ensures Step(c, cmd).0.maxSize == c.maxSize && Step(c, cmd).0.ttlBuf == c.ttlBuf
    ensures cmd.GetSync? ==>
              (Step(c, cmd).1 <==> cmd.key in c.store && (c.store[cmd.key].ttl !in c.ttl || cmd.now < 0))
    ensures cmd.InsertSync? ==>
              (Step(c, cmd).1 <==> cmd.key !in c.store && (|cmd.value| > c.maxSize || cmd.now < 0))
  {
    hide BucketsAgree, TotalSize, Evict, Get, CleanUp, Insert;
    match cmd
    case GetSync(k, now) => if k in c.store { GetKeepsCore(c, k, now); } else { Miss(c, k, now); }
    case InsertSync(k, v, now) => InsertKeepsCore(c, k, v, now);
    case TtlCleanUp(clock) => CleanUpKeepsCore(c, clock, 0);
    case PurgeCache => PurgeRefines(c, Simple(map[], []));
  }

  lemma CoreStepRefines(c: Cache, s: Simple, cmd: Command) returns (s': Simple)
    requires Core(c) && Refines(c, s) && CoreClean(c, cmd)
    ensures Refines(Step(c, cmd).0, s') && LooseStep(s, c.maxSize, c.ttlBuf, cmd, s')
  {
    hide Core, Refines, SimpleStep, Get, CleanUp, Insert;
    match cmd
    case GetSync(k, now) => s' := LooseGet(c, s, k, now);
    case InsertSync(k, v, now) =>
      if k in c.store {
        s' := s;
        InsertOfPresent(c, s, k, v, now);
      } else {
        s' := InsertRefines(c, s, k, v, now);
      }
    case TtlCleanUp(clock) => s' := LooseCleanUp(c, s, clock);
    case PurgeCache =>
      s' := s.(items := map[]);
      PurgeRefines(c, s);
  }

  ghost predicate LooselyReaches(maxSize: nat, ttlBuf: nat, cmds: seq<Command>, s: Simple) {
    if cmds == [] then s == Simple(map[], [])
    else exists s0 :: LooselyReaches(maxSize, ttlBuf, Front(cmds), s0) && LooseStep(s0, maxSize, ttlBuf, Last(cmds), s)
  }

  /** Over every run that admits nothing before the epoch, whatever readings coincide: buckets and
      sizes agree, the cache stays within its limit, and it refines the simple cache up to deadlines,
      so what an eviction removes is always the shortest prefix of the victim order that makes room. */
  lemma {:induction false} EveryRunRefines(maxSize: nat, ttlBuf: nat, cmds: seq<Command>) returns (s: Simple)
    requires forall cmd :: cmd in cmds && cmd.InsertSync? ==> cmd.now >= 0
    ensures LooselyReaches(maxSize, ttlBuf, cmds, s)
    ensures var c := Run(Empty(maxSize, ttlBuf), cmds);
            Core(c) && Refines(c, s) && c.maxSize == maxSize && c.ttlBuf == ttlBuf
  {
    if cmds == [] {
      s := Simple(map[], []);
      PurgeRefines(Empty(maxSize, ttlBuf), s);
    } else {
      assert Last(cmds) in cmds && forall cmd :: cmd in Front(cmds) ==> cmd in cmds;
      hide Core, Refines, Step, LooseStep, Empty, Front, Last;
      var s0 := EveryRunRefines(maxSize, ttlBuf, Front(cmds));
      CoreStepExactly(Run(Empty(maxSize, ttlBuf), Front(cmds)), Last(cmds));
      s := CoreStepRefines(Run(Empty(maxSize, ttlBuf), Front(cmds)), s0, Last(cmds));
    }
  }

  // ----- what stops the worker

  predicate Oversized(c: Cache, cmd: Command) {
    cmd.InsertSync? && cmd.key !in c.store && |cmd.value| > c.maxSize
  }

  ghost predicate AfterEpoch(cmd: Command) {
    match cmd
    case GetSync(_, now) => now >= 0
    case InsertSync(_, _, now) => now >= 0
    case TtlCleanUp(clock) => forall n :: clock(n) >= 0
    case PurgeCache => true
  }

  /** So, over every run whose readings are after the epoch and whose gets and insertions all read
      different instants, the stop signal is raised exactly for the insertion of an absent key whose
      value is larger than the cache. */
  lemma OnlyOversizedStops(maxSize: nat, ttlBuf: nat, cmds: seq<Command>)
    requires Ticking(cmds) && cmds != [] && AfterEpoch(Last(cmds))
    ensures Signals(Empty(maxSize, ttlBuf), cmds) <==> Oversized(Run(Empty(maxSize, ttlBuf), Front(cmds)), Last(cmds))
  {
    TickingIsClean(maxSize, ttlBuf, cmds);
    var _ := RunRefines(maxSize, ttlBuf, cmds);
  }

  // ----- when two readings coincide

  const FIRST := InsertSync("a", [0], 100)
  const SECOND := InsertSync("b", [1], 100)
  const THIRD := GetSync("a", 200)
  const FOURTH := GetSync("b", 300)

  /** Otherwise the indexes can come apart: after two insertions at one instant, a hit on each of the
      two keys makes the worker raise its stop signal although nothing was too large. */
  lemma SharedDeadlineStopsWorker()
    ensures var c0 := Empty(10, 5);
            && !Signals(c0, [FIRST]) && !Signals(c0, [FIRST, SECOND])
            && !Signals(c0, [FIRST, SECOND, THIRD]) && Signals(c0, [FIRST, SECOND, THIRD, FOURTH])
  {
    FirstInsertion();
    SecondInsertion();
    FirstHit();
    SecondHit();
    hide Step, WithA, WithBoth, AfterHit, Empty;
    assert Front([FIRST]) == [];
    assert Front([FIRST, SECOND]) == [FIRST];
    assert Front([FIRST, SECOND, THIRD]) == [FIRST, SECOND];
    assert Front([FIRST, SECOND, THIRD, FOURTH]) == [FIRST, SECOND, THIRD];
  }

  function WithA(): Cache {
    Cache(map["a" := Entry([0], 1, 0, 105)], map[1 := [(0, "a")]], map[105 := "a"], 1, 10, 5)
  }

  function WithBoth(): Cache {
    Cache(map["a" := Entry([0], 1, 0, 105), "b" := Entry([1], 1, 1, 105)],
          map[1 := [(0, "a"), (1, "b")]], map[105 := "b"], 2, 10, 5)
  }

  function AfterHit(): Cache {
    Cache(map["a" := Entry([0], 2, 0, 205), "b" := Entry([1], 1, 1, 105)],
          map[1 := [(1, "b")], 2 := [(0, "a")]], map[205 := "b"], 2, 10, 5)
  }

  lemma EmptyBucket(k: Key)
    ensures var b: Bucket := []; NextLruKey(b) == 0 && Lookup(b, 0).None? && b + [(0, k)] == [(0, k)]
  {
  }

  lemma FirstInsertion()
    ensures Step(Empty(10, 5), FIRST) == (WithA(), false)
  {
    EmptyBucket("a");
    assert BucketAt(Empty(10, 5).freq, 1) == [];
    assert Evict(Empty(10, 5), 1) == (Empty(10, 5), Ok(()));
    var c' := Admit(Empty(10, 5), "a", [0], 100).0;
    assert c'.freq == map[1 := [(0, "a")]] && c'.ttl == map[105 := "a"] && c'.store == WithA().store;
  }

  lemma SecondInsertion()
    ensures Step(WithA(), SECOND) == (WithBoth(), false)
  {
    var c := WithA();
    assert "b" !in c.store;
    assert Evict(c, 1) == (c, Ok(()));
    assert BucketAt(c.freq, 1) == [(0, "a")];
    assert NextLruKey([(0, "a")]) == 1;
    assert [(0, "a")] + [(1, "b")] == [(0, "a"), (1, "b")];
    assert IndexOf([(0, "a")], 1) == 1;
    var c' := Admit(c, "b", [1], 100).0;
    assert c'.freq == map[1 := [(0, "a"), (1, "b")]] && c'.ttl == map[105 := "b"] && c'.store == WithBoth().store;
  }

  function Promoted(): Cache {
    WithBoth().(freq := map[1 := [(1, "b")], 2 := [(0, "a")]], store := WithBoth().store["a" := Entry([0], 2, 0, 105)])
  }

  lemma FirstPromotion()
    ensures Promote(WithBoth(), "a") == (Promoted(), Ok(()))
  {
    var c := WithBoth();
    var b: Bucket := [(0, "a"), (1, "b")];
    assert IndexOf(b, 0) == 0 && Lookup(b, 0) == Some("a");
    assert Without(b, 0) == [(1, "b")];
    var left := Shrunk(c.freq, 1, [(1, "b")]);
    assert left == map[1 := [(1, "b")]];
    EmptyBucket("a");
    assert BucketAt(left, 2) == [];
    assert Promote(c, "a").0.freq == Promoted().freq;
  }

  lemma FirstHit()
    ensures Step(WithBoth(), THIRD) == (AfterHit(), false)
  {
    FirstPromotion();
    hide Promote;
    var c := Renew(Promoted(), "a", 200).0;
    assert c.ttl == map[205 := "b"] && c.store == AfterHit().store;
  }

  lemma SecondHit()
    ensures Step(AfterHit(), FOURTH).1
  {
    var c := AfterHit();
    var b: Bucket := [(1, "b")];
    assert IndexOf(b, 1) == 0 && Lookup(b, 1) == Some("b");
    assert Renew(Promote(c, "b").0, "b", 300).1 == Err(TtlNotFound);
  }
}
