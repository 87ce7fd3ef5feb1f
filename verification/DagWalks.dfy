/**
 * The two walks over the link graph: `dag_traversal`, a worklist in arbitrary hash-set order, and
 * `missing_blocks`, a stack walk that keeps no visited set (crates/ursa-store/src/store.rs:37-67
 * and :171-185).
 */
module DagWalks {
  import opened Prelude
  import opened DagGraph

  datatype WalkError = Missing(cid: Cid) | BadBlock(cid: Cid)

  // ----- dag_traversal

  ghost function Cids(blocks: seq<(Cid, Bytes)>): set<Cid> {
    set b | b in blocks :: b.0
  }

  /** Each listed id once, with its stored bytes. */
  ghost predicate Lists(s: Store, blocks: seq<(Cid, Bytes)>) {
    && (forall i, j :: 0 <= i < j < |blocks| ==> blocks[i].0 != blocks[j].0)
    && (forall b :: b in blocks ==> b.0 in s.db && b.1 == s.db[b.0])
  }

  /** What a traversal is: it succeeds exactly when every reachable id is stored with a valid block,
      and then lists exactly the reachable ids, each once with its stored bytes, the root first. */
  ghost predicate IsTraversal(s: Store, root: Cid, r: Result<seq<(Cid, Bytes)>, WalkError>) {
    && (r.Ok? <==> forall c :: Reachable(s, root, c) ==> s.Good(c))
    && (r.Ok? ==>
          && Lists(s, r.value)
          && (forall c :: c in Cids(r.value) <==> Reachable(s, root, c))
          && r.value != [] && r.value[0].0 == root)
    && (r.Err? ==> Reachable(s, root, r.error.cid) && !s.Good(r.error.cid)
                   && (r.error.Missing? <==> r.error.cid !in s.db))
  }

  /** The worklist: visited blocks are good and listed, their links are visited or waiting. */
  ghost predicate Progress(s: Store, root: Cid, current: set<Cid>, refs: set<Cid>, res: seq<(Cid, Bytes)>) {
    && Lists(s, res) && Cids(res) == refs
    && (forall c :: c in refs ==> s.Good(c))
    && (forall c :: c in refs || c in current ==> Reachable(s, root, c))
    && (forall c, d :: c in refs && d in s.Links(c) ==> d in refs || d in current)
    && (if res == [] then current == {root} else res[0].0 == root)
  }

  method DagTraversal(s: Store, root: Cid) returns (r: Result<seq<(Cid, Bytes)>, WalkError>)
    ensures IsTraversal(s, root, r)
  {
    hide Progress, IsTraversal, Reachable;
    var res := [];
    var current, refs := {root}, {};
    TraversalStarts(s, root);
    while current != {}
      invariant Progress(s, root, current, refs, res)
      decreases |s.db.Keys - refs|, |current|
    {
      var cid :| cid in current;
      ghost var waiting := current;
      current := current - {cid};
      Revisit(s, root, waiting, refs, res, cid);
      if cid in refs { continue; }
      if cid !in s.db { return Err(Missing(cid)); }
      var data := s.db[cid];
      if !s.format.matches(cid, data) { return Err(BadBlock(cid)); }
      var links := s.format.refs(cid, data);
      if links.None? { return Err(BadBlock(cid)); }
      Visit(s, root, waiting, refs, res, cid);
      VisitShrinks(s.db.Keys, refs, cid);
      res := res + [(cid, data)];
      current := current + set l | l in links.value;
      refs := refs + {cid};
    }
    Finished(s, root, refs, res);
    return Ok(res);
  }

  lemma TraversalStarts(s: Store, root: Cid)
    ensures Progress(s, root, {root}, {}, [])
  {
    ReachSelf(s, root);
    assert Cids([]) == {};
  }

  /** A waiting id that was visited may be dropped; one that is not good is a reason to fail. */
  lemma Revisit(s: Store, root: Cid, current: set<Cid>, refs: set<Cid>, res: seq<(Cid, Bytes)>, cid: Cid)
    requires Progress(s, root, current, refs, res) && cid in current
    ensures cid in refs ==> Progress(s, root, current - {cid}, refs, res)
    ensures !s.Good(cid) ==> IsTraversal(s, root, Err(if cid in s.db then BadBlock(cid) else Missing(cid)))
  {
    hide Reachable, Lists, Cids;
    if res == [] && cid in refs { NothingListed(res, refs, cid); }
  }

  lemma NothingListed(res: seq<(Cid, Bytes)>, refs: set<Cid>, cid: Cid)
    requires Cids(res) == refs && cid in refs
    ensures res != []
  {
  }

  lemma VisitShrinks(keys: set<Cid>, refs: set<Cid>, cid: Cid)
    requires cid in keys && cid !in refs
    ensures |keys - (refs + {cid})| < |keys - refs|
  {
    SubsetSmaller(keys - (refs + {cid}), keys - refs, cid);
  }

  lemma Visit(s: Store, root: Cid, current: set<Cid>, refs: set<Cid>, res: seq<(Cid, Bytes)>, cid: Cid)
    requires Progress(s, root, current, refs, res) && cid in current && cid !in refs && s.Good(cid)
    ensures Progress(s, root, current - {cid} + (set l | l in s.Links(cid)), refs + {cid}, res + [(cid, s.db[cid])])
  {
    forall d | d in s.Links(cid) ensures Reachable(s, root, d) {
      ReachLink(s, cid, d);
      ReachTransitive(s, root, cid, d);
    }
    var res' := res + [(cid, s.db[cid])];
    assert Cids(res') == refs + {cid} by {
      assert res'[|res|] in res';
      assert forall b :: b in res ==> b in res';
      assert forall b :: b in res' ==> b in res || b == res'[|res|];
      assert forall b :: b in res ==> b.0 in Cids(res);
    }
    forall i | 0 <= i < |res| ensures res[i].0 != cid { assert res[i] in res && res[i].0 in Cids(res); }
  }

  lemma Finished(s: Store, root: Cid, refs: set<Cid>, res: seq<(Cid, Bytes)>)
    requires Progress(s, root, {}, refs, res)
    ensures IsTraversal(s, root, Ok(res))
  {
    assert res != [];
    assert res[0] in res && res[0].0 in Cids(res);
    forall c | Reachable(s, root, c) ensures c in refs {
      var p :| Follow(s, root, p) == Some(c);
      ClosedHoldsReachable(s, refs, root, p);
    }
  }

  // ----- missing_blocks

  /** The state of the stack walk between two turns of its loop. */
  datatype Walk = Walk(stack: seq<Cid>, missing: seq<Cid>, failed: Option<Cid>)

  function Start(root: Cid): Walk {
    Walk([root], [], None)
  }

  predicate Done(w: Walk) {
    w.stack == [] || w.failed.Some?
  }

  /** One turn: pop an id; push the links of a present block, or note an absent one. */
  function Turn(s: Store, w: Walk): Walk
    requires !Done(w)
  {
    var (rest, c) := (w.stack[..|w.stack| - 1], w.stack[|w.stack| - 1]);
    if c !in s.db then Walk(rest, w.missing + [c], None)
    else match s.format.refs(c, s.db[c])
      case None => Walk(rest, w.missing, Some(c))
      case Some(links) => Walk(rest + links, w.missing, None)
  }

  /** The walk after n turns, or after its last one. */
  function Turns(s: Store, w: Walk, n: nat): Walk
    decreases n
  {
    if n == 0 then w else
    var w1 := Turns(s, w, n - 1);
    if Done(w1) then w1 else Turn(s, w1)
  }

  lemma {:induction false} TurnFirst(s: Store, w: Walk, n: nat)
    requires !Done(w)
    ensures Turns(s, w, n + 1) == Turns(s, Turn(s, w), n)
  {
    if n > 0 { TurnFirst(s, w, n - 1); }
  }

  /** The number of ids the walk pops below `c`, from link position i on. */
  ghost function WeightVia(s: Store, c: Cid, i: nat): nat
    requires AcyclicFrom(s, c)
    decreases Rank(s, c), |s.Links(c)| - i
  {
    if i >= |s.Links(c)| then 0 else
    var d := s.Links(c)[i];
    assert d in s.Links(c);
    RankFalls(s, c, d);
    1 + WeightVia(s, d, 0) + WeightVia(s, c, i + 1)
  }

  ghost predicate Acyclic(s: Store, cs: seq<Cid>) {
    forall c :: c in cs ==> AcyclicFrom(s, c)
  }

  ghost function Weight(s: Store, stack: seq<Cid>): nat
    requires Acyclic(s, stack)
  {
    if stack == [] then 0 else
    assert forall c :: c in stack[1..] ==> c in stack;
    assert stack[0] in stack;
    1 + WeightVia(s, stack[0], 0) + Weight(s, stack[1..])
  }

  ghost function PathCount(s: Store, stack: seq<Cid>, x: Cid): nat
    requires Acyclic(s, stack)
  {
    if stack == [] then 0 else
    assert forall c :: c in stack[1..] ==> c in stack;
    assert stack[0] in stack;
    |Paths(s, stack[0], x)| + PathCount(s, stack[1..], x)
  }

  lemma {:induction false} StackSplit(s: Store, a: seq<Cid>, b: seq<Cid>, x: Cid)
    requires Acyclic(s, a) && Acyclic(s, b)
    ensures Acyclic(s, a + b)
    ensures Weight(s, a + b) == Weight(s, a) + Weight(s, b)
    ensures PathCount(s, a + b, x) == PathCount(s, a, x) + PathCount(s, b, x)
    decreases |a|
  {
    hide AcyclicFrom, Paths, WeightVia;
    if a == [] {
      assert a + b == b;
    } else {
      assert (a + b)[0] == a[0] && (a + b)[1..] == a[1..] + b;
      assert forall c :: c in a[1..] ==> c in a;
      assert a[0] in a;
      StackSplit(s, a[1..], b, x);
    }
  }

  /** The links of `c` from position i on, as a stack. */
  lemma {:induction false} LinksAsStack(s: Store, c: Cid, i: nat, x: Cid)
    requires AcyclicFrom(s, c) && i <= |s.Links(c)|
    ensures Acyclic(s, s.Links(c)[i..])
    ensures Weight(s, s.Links(c)[i..]) == WeightVia(s, c, i)
    ensures PathCount(s, s.Links(c)[i..], x) == |PathsVia(s, c, i, x)|
    decreases |s.Links(c)| - i
  {
    var links := s.Links(c);
    forall d | d in links ensures AcyclicFrom(s, d) { RankFalls(s, c, d); }
    hide AcyclicFrom;
    if i < |links| {
      LinksAsStack(s, c, i + 1, x);
      assert links[i..][0] == links[i] && links[i..][1..] == links[i + 1..];
      assert links[i] in links;
      PathsBySlot(s, c, i, x);
    }
  }

  lemma PathsBySlot(s: Store, c: Cid, i: nat, x: Cid)
    requires AcyclicFrom(s, c) && i < |s.Links(c)| && AcyclicFrom(s, s.Links(c)[i])
    ensures |PathsVia(s, c, i, x)| == |Paths(s, s.Links(c)[i], x)| + |PathsVia(s, c, i + 1, x)|
  {
    hide AcyclicFrom, PathsVia, Paths, Prefixed;
    var (first, later) := (Prefixed(i, Paths(s, s.Links(c)[i], x)), PathsVia(s, c, i + 1, x));
    PathsViaSplit(s, c, i, x);
    PrefixedSize(i, Paths(s, s.Links(c)[i], x));
    forall p | p in later ensures p !in first {
      PathsViaExact(s, c, i + 1, x, p);
      if p in first { PrefixedFirst(i, Paths(s, s.Links(c)[i], x), p); }
    }
    DisjointSize(first, later);
  }

  lemma DisjointSize<T>(a: set<T>, b: set<T>)
    requires a !! b
    ensures |a + b| == |a| + |b|
  {
  }

  /** A turn pops one id's worth of weight, and moves an absent id from the stack to the result with
      every path to it that begins there. */
  lemma TurnConserves(s: Store, w: Walk, x: Cid)
    requires !Done(w) && Acyclic(s, w.stack)
    ensures var w' := Turn(s, w);
            && Acyclic(s, w'.stack) && Weight(s, w'.stack) < Weight(s, w.stack)
            && (w'.failed.None? && x !in s.db ==>
                  multiset(w'.missing)[x] + PathCount(s, w'.stack, x) ==
                  multiset(w.missing)[x] + PathCount(s, w.stack, x))
  {
    var (rest, c) := (w.stack[..|w.stack| - 1], w.stack[|w.stack| - 1]);
    assert w.stack == rest + [c];
    assert c in w.stack && forall d :: d in rest ==> d in w.stack;
    TurnShape(s, w);
    hide AcyclicFrom, Weight, PathCount, Turn;
    StackSplit(s, rest, [c], x);
    OneOnStack(s, c, x);
    StackSplit(s, rest, s.Links(c), x);
  }

  /** A turn replaces the top of the stack by its links, of which an absent or bad block has none. */
  lemma TurnShape(s: Store, w: Walk)
    requires !Done(w)
    ensures var c := w.stack[|w.stack| - 1];
            && Turn(s, w).stack == w.stack[..|w.stack| - 1] + s.Links(c)
            && forall x :: x !in s.db ==>
                 multiset(Turn(s, w).missing)[x] == multiset(w.missing)[x] + if c == x then 1 else 0
  {
  }

  /** What an id weighs on the stack, and the paths that begin there. */
  lemma OneOnStack(s: Store, c: Cid, x: Cid)
    requires AcyclicFrom(s, c)
    ensures Acyclic(s, s.Links(c)) && Weight(s, [c]) == 1 + Weight(s, s.Links(c))
    ensures PathCount(s, [c], x) == PathCount(s, s.Links(c), x) + if c == x then 1 else 0
    ensures c !in s.db ==> s.Links(c) == [] && PathCount(s, s.Links(c), x) == 0
  {
    hide AcyclicFrom;
    LinksAsStack(s, c, 0, x);
    assert s.Links(c)[0..] == s.Links(c);
    assert [c][1..] == [];
    assert [] !in PathsVia(s, c, 0, x) by { PathsViaExact(s, c, 0, x, []); }
  }

  /** What `missing_blocks` returns: it fails exactly when a reachable present block does not decode;
      otherwise no cycle is reachable, and each absent id occurs as often as there are link paths to
      it from the root. */
  ghost predicate IsMissing(s: Store, root: Cid, r: Result<seq<Cid>, WalkError>) {
    && (r.Ok? <==> AllDecode(s, root))
    && (r.Ok? ==> AcyclicFrom(s, root) && IsPathCount(s, root, r.value))
    && (r.Err? ==> r.error.BadBlock? && Reachable(s, root, r.error.cid) && !s.Decodes(r.error.cid))
  }

  ghost predicate IsPathCount(s: Store, root: Cid, missing: seq<Cid>)
    requires AcyclicFrom(s, root)
  {
    forall x :: multiset(missing)[x] == if x in s.db then 0 else |Paths(s, root, x)|
  }

  /** Popped ids decode and their links are popped or waiting; only absent ids are noted. */
  ghost predicate WalkInv(s: Store, root: Cid, w: Walk, seen: set<Cid>) {
    && w.failed.None?
    && (forall c :: c in w.stack || c in seen ==> Reachable(s, root, c))
    && (root in seen || root in w.stack)
    && (forall c :: c in seen ==> s.Decodes(c))
    && (forall c, d :: c in seen && d in s.Links(c) ==> d in seen || d in w.stack)
    && (forall c :: c in w.missing ==> c !in s.db)
  }

  ghost predicate Conserved(s: Store, root: Cid, w: Walk) {
    && AcyclicFrom(s, root) && Acyclic(s, w.stack)
    && forall x :: x !in s.db ==> multiset(w.missing)[x] + PathCount(s, w.stack, x) == |Paths(s, root, x)|
  }

  lemma WalkInvKept(s: Store, root: Cid, w: Walk, seen: set<Cid>)
    requires WalkInv(s, root, w, seen) && w.stack != []
    ensures var c := w.stack[|w.stack| - 1];
            && Reachable(s, root, c)
            && (Turn(s, w).failed.None? <==> s.Decodes(c))
            && (Turn(s, w).failed.None? ==> WalkInv(s, root, Turn(s, w), seen + {c}))
  {
    var (rest, c) := (w.stack[..|w.stack| - 1], w.stack[|w.stack| - 1]);
    var w' := Turn(s, w);
    assert c in w.stack;
    assert forall d :: d in w.stack <==> d in rest || d == c by { assert w.stack == rest + [c]; }
    forall d | d in s.Links(c) ensures Reachable(s, root, d) {
      ReachLink(s, c, d);
      ReachTransitive(s, root, c, d);
    }
    hide Reachable;
    if w'.failed.None? {
      assert forall d :: d in w'.stack <==> d in rest || d in s.Links(c);
    }
  }

  lemma ConservedKept(s: Store, root: Cid, w: Walk)
    requires Conserved(s, root, w) && !Done(w) && Turn(s, w).failed.None?
    ensures Conserved(s, root, Turn(s, w)) && Weight(s, Turn(s, w).stack) < Weight(s, w.stack)
  {
    TurnConserves(s, w, root);
    forall x | x !in s.db ensures
        multiset(Turn(s, w).missing)[x] + PathCount(s, Turn(s, w).stack, x) == |Paths(s, root, x)| {
      TurnConserves(s, w, x);
    }
  }

  /** The walk, turn by turn, comes to this result. */
  ghost predicate EndsAs(s: Store, root: Cid, r: Result<seq<Cid>, WalkError>) {
    exists n ::
      var w := Turns(s, Start(root), n);
      match r
      case Ok(missing) => w == Walk([], missing, None)
      case Err(e) => w.failed == Some(e.cid)
  }

  /** The walk is over after some number of turns. */
  ghost predicate Halts(s: Store, root: Cid) {
    exists n :: Done(Turns(s, Start(root), n))
  }

  lemma WalkFails(s: Store, root: Cid, c: Cid)
    requires Reachable(s, root, c) && !s.Decodes(c)
    ensures IsMissing(s, root, Err(BadBlock(c)))
  {
  }

  /** `missing_blocks`, on exactly the stores and roots on which it returns (see `ReturnsExactly`). */
  method MissingBlocks(s: Store, root: Cid) returns (r: Result<seq<Cid>, WalkError>)
    requires Returns(s, root)
    ensures IsMissing(s, root, r)
    ensures EndsAs(s, root, r)
  {
    hide Reachable, WalkInv, IsMissing, Returns;
    ReturnsExactly(s, root);
    ghost var total: nat :| Done(Turns(s, Start(root), total));
    var stack, missing := [root], [];
    ghost var seen, n := {}, 0;
    StartInv(s, root);
    while stack != []
      invariant WalkInv(s, root, Walk(stack, missing, None), seen)
      invariant Turns(s, Start(root), n) == Walk(stack, missing, None)
      decreases total - n
    {
      ghost var w := Walk(stack, missing, None);
      StillGoing(s, Start(root), n, total);
      WalkInvKept(s, root, w, seen);
      var cid := stack[|stack| - 1];
      stack := stack[..|stack| - 1];
      seen := seen + {cid};
      if cid in s.db {
        var links := s.format.refs(cid, s.db[cid]);
        if links.None? {
          assert Turns(s, Start(root), n + 1) == Turn(s, w);
          WalkFails(s, root, cid);
          return Err(BadBlock(cid));
        }
        stack := stack + links.value;
      } else {
        missing := missing + [cid];
      }
      assert Walk(stack, missing, None) == Turn(s, w);
      n := n + 1;
    }
    WalkEnds(s, root, missing, seen, n);
    return Ok(missing);
  }

  lemma {:induction false} StillGoing(s: Store, w: Walk, n: nat, total: nat)
    requires !Done(Turns(s, w, n)) && Done(Turns(s, w, total))
    ensures n < total
    decreases n
  {
    if n > total {
      StillGoing(s, w, n - 1, total);
      assert false;
    }
  }

  lemma StartInv(s: Store, root: Cid)
    ensures WalkInv(s, root, Start(root), {})
  {
    ReachSelf(s, root);
  }

  lemma StartConserved(s: Store, root: Cid)
    requires AcyclicFrom(s, root)
    ensures Conserved(s, root, Start(root))
  {
    hide AcyclicFrom, Paths;
    forall x ensures PathCount(s, [root], x) == |Paths(s, root, x)| {
      assert PathCount(s, [root][1..], x) == 0;
    }
  }

  lemma {:induction false} TurnsConserve(s: Store, root: Cid, n: nat)
    requires AcyclicFrom(s, root) && Turns(s, Start(root), n).failed.None?
    ensures Conserved(s, root, Turns(s, Start(root), n))
  {
    hide AcyclicFrom, Conserved;
    if n == 0 {
      StartConserved(s, root);
    } else {
      TurnsConserve(s, root, n - 1);
      if !Done(Turns(s, Start(root), n - 1)) { ConservedKept(s, root, Turns(s, Start(root), n - 1)); }
    }
  }

  lemma WalkEnds(s: Store, root: Cid, missing: seq<Cid>, seen: set<Cid>, n: nat)
    requires WalkInv(s, root, Walk([], missing, None), seen)
    requires Turns(s, Start(root), n) == Walk([], missing, None)
    ensures IsMissing(s, root, Ok(missing))
  {
    forall c | Reachable(s, root, c) ensures s.Decodes(c) {
      var p :| Follow(s, root, p) == Some(c);
      ClosedHoldsReachable(s, seen, root, p);
    }
    hide Reachable, AcyclicFrom, Turns;
    EndsExactlyWhenAcyclic(s, root);
    TurnsConserve(s, root, n);
  }

  // ----- when the stack walk ends

  ghost predicate AllDecode(s: Store, c: Cid) {
    forall d :: Reachable(s, c, d) ==> s.Decodes(d)
  }

  /** Link path `p` from `c` ends in a block that does not decode, and no cycle is reachable from the
      links to the right of the path, which are popped first. */
  ghost predicate FailsAt(s: Store, c: Cid, p: seq<nat>)
    decreases |p|
  {
    if p == [] then !s.Decodes(c)
    else
      && p[0] < |s.Links(c)|
      && Acyclic(s, s.Links(c)[p[0] + 1..])
      && FailsAt(s, s.Links(c)[p[0]], p[1..])
  }

  ghost predicate Fails(s: Store, c: Cid) {
    exists p :: FailsAt(s, c, p)
  }

  /** No cycle is reachable from `c`, or a block that does not decode is met before any cycle. */
  ghost predicate Returns(s: Store, c: Cid) {
    AcyclicFrom(s, c) || Fails(s, c)
  }

  /** What lies on the stack above `rest`, if no cycle is reachable from it, is walked to its end
      unless the walk fails. */
  lemma {:induction false} AcyclicTop(s: Store, rest: seq<Cid>, top: seq<Cid>, missing: seq<Cid>) returns (n: nat)
    requires Acyclic(s, top)
    ensures var w := Turns(s, Walk(rest + top, missing, None), n); w.failed.Some? || w.stack == rest
    decreases Weight(s, top)
  {
    hide AcyclicFrom, Turn, Turns, Weight, PathCount;
    n := 0;
    ZeroTurns(s, Walk(rest + top, missing, None));
    if top == [] {
      assert rest + top == rest;
    } else {
      var alone := Turn(s, Walk(top, missing, None));
      TurnConserves(s, Walk(top, missing, None), top[0]);
      TurnAbove(s, rest, top, missing);
      if alone.failed.None? {
        n := AcyclicTop(s, rest, alone.stack, alone.missing);
      } else {
        ZeroTurns(s, alone.(stack := rest + alone.stack));
      }
      TurnFirst(s, Walk(rest + top, missing, None), n);
      n := n + 1;
    }
  }

  /** A turn leaves alone what lies under the top of the stack. */
  lemma TurnAbove(s: Store, rest: seq<Cid>, top: seq<Cid>, missing: seq<Cid>)
    requires top != []
    ensures var alone := Turn(s, Walk(top, missing, None));
            Turn(s, Walk(rest + top, missing, None)) == alone.(stack := rest + alone.stack)
  {
    assert (rest + top)[..|rest + top| - 1] == rest + top[..|top| - 1];
  }

  lemma {:induction false} TurnsAdd(s: Store, w: Walk, m: nat, n: nat)
    ensures Turns(s, w, m + n) == Turns(s, Turns(s, w, m), n)
  {
    if n > 0 { TurnsAdd(s, w, m, n - 1); }
  }

  /** The walk comes to the block that does not decode, or to another one before it. */
  lemma {:induction false} FailureComes(s: Store, rest: seq<Cid>, c: Cid, p: seq<nat>, missing: seq<Cid>)
    returns (n: nat)
    requires FailsAt(s, c, p)
    ensures Turns(s, Walk(rest + [c], missing, None), n).failed.Some?
    decreases |p|
  {
    hide AcyclicFrom, Turns;
    var w := Walk(rest + [c], missing, None);
    assert w.stack[..|w.stack| - 1] == rest;
    TurnFirst(s, w, 0);
    ZeroTurns(s, Turn(s, w));
    n := 1;
    if p != [] {
      var (links, i) := (s.Links(c), p[0]);
      var below := rest + links[..i];
      assert rest + links == below + [links[i]] + links[i + 1..];
      var k := AcyclicTop(s, below + [links[i]], links[i + 1..], missing);
      var w2 := Turns(s, Turn(s, w), k);
      TurnsAdd(s, w, 1, k);
      n := 1 + k;
      if w2.failed.None? {
        var m := FailureComes(s, below, links[i], p[1..], w2.missing);
        TurnsAdd(s, w, n, m);
        n := n + m;
      }
    }
  }

  lemma ZeroTurns(s: Store, w: Walk)
    ensures Turns(s, w, 0) == w
  {
  }

  /** The last id of a list from which a cycle is reachable. */
  lemma {:induction false} LastCyclic(s: Store, cs: seq<Cid>) returns (i: nat)
    requires !Acyclic(s, cs)
    ensures i < |cs| && !AcyclicFrom(s, cs[i]) && Acyclic(s, cs[i + 1..])
  {
    hide AcyclicFrom;
    if Acyclic(s, cs[1..]) {
      i := 0;
    } else {
      var j := LastCyclic(s, cs[1..]);
      i := j + 1;
      assert cs[1..][j + 1..] == cs[i + 1..];
    }
  }

  /** A cycle below `c` lies below one of its links. */
  lemma CycleBelowLink(s: Store, c: Cid)
    requires !AcyclicFrom(s, c)
    ensures !Acyclic(s, s.Links(c))
  {
    var e :| Reachable(s, c, e) && Beyond(s, e, e);
    var p :| Follow(s, c, p) == Some(e);
    if p == [] {
      var d :| d in s.Links(e) && Reachable(s, d, e);
      assert !AcyclicFrom(s, d);
    } else {
      var d := s.Links(c)[p[0]];
      assert d in s.Links(c) && Follow(s, d, p[1..]) == Some(e);
    }
  }

  /** No cycle is reachable from any of these, and the walk does not fail below them. */
  ghost predicate Smooth(s: Store, cs: seq<Cid>) {
    forall c :: c in cs ==> AcyclicFrom(s, c) && !Fails(s, c)
  }

  /** Where the walk does not fail below `c`, it does not fail below the links it pops before it is
      caught in a cycle. */
  lemma NoFailureRight(s: Store, c: Cid, i: nat)
    requires !Fails(s, c) && i < |s.Links(c)| && Acyclic(s, s.Links(c)[i + 1..])
    ensures !Fails(s, s.Links(c)[i]) && Smooth(s, s.Links(c)[i + 1..])
  {
    hide AcyclicFrom;
    var links := s.Links(c);
    forall j, p | i <= j < |links| ensures !FailsAt(s, links[j], p) {
      assert links[j + 1..] == links[i + 1..][j - i..];
      assert ([j] + p)[1..] == p;
      assert !FailsAt(s, c, [j] + p);
    }
  }

  lemma LinksSmooth(s: Store, c: Cid)
    requires AcyclicFrom(s, c) && !Fails(s, c)
    ensures s.Decodes(c) && Smooth(s, s.Links(c))
  {
    assert !FailsAt(s, c, []);
    var links := s.Links(c);
    forall d | d in links ensures AcyclicFrom(s, d) { RankFalls(s, c, d); }
    hide AcyclicFrom;
    if links != [] {
      NoFailureRight(s, c, 0);
      assert links == [links[0]] + links[1..];
    }
  }

  /** The walk is caught below position k of its stack, and what it pops before does not fail. */
  ghost predicate CaughtAt(s: Store, w: Walk, k: nat) {
    && w.failed.None? && k < |w.stack|
    && !Returns(s, w.stack[k])
    && Smooth(s, w.stack[k + 1..])
  }

  lemma CaughtStays(s: Store, w: Walk, k: nat) returns (k': nat)
    requires CaughtAt(s, w, k)
    ensures CaughtAt(s, Turn(s, w), k')
  {
    hide AcyclicFrom, Fails;
    var (rest, c) := (w.stack[..|w.stack| - 1], w.stack[|w.stack| - 1]);
    var links := s.Links(c);
    if k == |rest| {
      Decoding(s, c);
      CycleBelowLink(s, c);
      var i := LastCyclic(s, links);
      NoFailureRight(s, c, i);
      k' := |rest| + i;
      assert (rest + links)[k' + 1..] == links[i + 1..];
    } else {
      k' := k;
      assert w.stack[k + 1..] == rest[k + 1..] + [c];
      assert c in w.stack[k + 1..];
      LinksSmooth(s, c);
      assert (rest + links)[k + 1..] == rest[k + 1..] + links;
      if c !in s.db { assert rest + links == rest; }
    }
  }

  lemma Decoding(s: Store, c: Cid)
    requires !Fails(s, c)
    ensures s.Decodes(c)
  {
    assert !FailsAt(s, c, []);
  }

  /** Once caught the walk never comes back: after any number of turns it is still going. */
  lemma {:induction false} CaughtGoesOn(s: Store, w: Walk, k: nat, n: nat) returns (k': nat)
    requires CaughtAt(s, w, k)
    ensures CaughtAt(s, Turns(s, w, n), k') && !Done(Turns(s, w, n))
    decreases n
  {
    hide Returns, Smooth;
    k' := k;
    if n > 0 {
      k' := CaughtGoesOn(s, w, k, n - 1);
      k' := CaughtStays(s, Turns(s, w, n - 1), k');
    }
  }

  /** On every store, `missing_blocks` returns if and only if no cycle is reachable from the root or a
      block that does not decode is met before any cycle. */
  lemma ReturnsExactly(s: Store, root: Cid)
    ensures Halts(s, root) <==> Returns(s, root)
  {
    hide AcyclicFrom, FailsAt;
    assert [] + [root] == [root];
    if AcyclicFrom(s, root) {
      var n := AcyclicTop(s, [], [root], []);
      assert Done(Turns(s, Start(root), n));
    } else if Fails(s, root) {
      var p :| FailsAt(s, root, p);
      var n := FailureComes(s, [], root, p, []);
      assert Done(Turns(s, Start(root), n));
    } else {
      assert CaughtAt(s, Start(root), 0);
      forall n: nat ensures !Done(Turns(s, Start(root), n)) {
        var _ := CaughtGoesOn(s, Start(root), 0, n);
      }
    }
  }

  lemma {:induction false} FailureReached(s: Store, c: Cid, p: seq<nat>)
    requires FailsAt(s, c, p)
    ensures Follow(s, c, p).Some? && !s.Decodes(Follow(s, c, p).value)
    decreases |p|
  {
    if p != [] { FailureReached(s, s.Links(c)[p[0]], p[1..]); }
  }

  lemma NoFailure(s: Store, c: Cid)
    requires AllDecode(s, c)
    ensures !Fails(s, c)
  {
    hide FailsAt;
    forall p ensures !FailsAt(s, c, p) {
      if FailsAt(s, c, p) { FailureReached(s, c, p); }
    }
  }

  /** So, if every reachable present block decodes, it terminates exactly when no cycle is reachable. */
  lemma EndsExactlyWhenAcyclic(s: Store, root: Cid)
    requires AllDecode(s, root)
    ensures Halts(s, root) <==> AcyclicFrom(s, root)
  {
    ReturnsExactly(s, root);
    NoFailure(s, root);
  }

  // ----- the two walks agree

  lemma NoneMissing(s: Store, root: Cid, missing: seq<Cid>)
    requires IsMissing(s, root, Ok(missing))
    ensures missing == [] <==> forall c :: Reachable(s, root, c) ==> c in s.db
  {
    if missing != [] {
      var x := missing[0];
      assert multiset(missing)[x] > 0;
      var p :| p in Paths(s, root, x);
      PathsExact(s, root, x, p);
      assert Reachable(s, root, x) && x !in s.db;
    } else {
      forall c | Reachable(s, root, c) ensures c in s.db {
        var p :| Follow(s, root, p) == Some(c);
        PathsExact(s, root, c, p);
        assert multiset(missing)[c] == 0;
      }
    }
  }

  /** Wherever `missing_blocks` returns, the traversal succeeds exactly when
      nothing is missing and the reachable present blocks match their ids, which only it checks. */
  lemma WalksAgree(s: Store, root: Cid, missing: Result<seq<Cid>, WalkError>, dag: Result<seq<(Cid, Bytes)>, WalkError>)
    requires IsMissing(s, root, missing) && IsTraversal(s, root, dag)
    ensures dag.Ok? <==>
              && missing == Ok([])
              && forall c :: Reachable(s, root, c) && c in s.db ==> s.format.matches(c, s.db[c])
  {
    if missing.Ok? { NoneMissing(s, root, missing.value); }
  }
}
