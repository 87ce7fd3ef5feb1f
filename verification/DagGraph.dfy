/**
 * The link graph of a block store (crates/ursa-store/src/store.rs): a finite map from content ids to
 * bytes, and functions of the block format that cannot be seen from here.
 */
module DagGraph {
  import opened Prelude

  datatype Cid = Cid(version: nat, codec: nat, hash: Bytes)

  /** What the block format does: check a block against its id, read the links of a block (None when
      it does not decode), and write ids and CAR headers as bytes. */
  datatype Format = Format(
    matches: (Cid, Bytes) -> bool,
    refs: (Cid, Bytes) -> Option<seq<Cid>>,
    cidBytes: Cid -> Bytes,
    header: Cid -> Bytes)

  datatype Store = Store(db: map<Cid, Bytes>, format: Format) {

    predicate Decodes(c: Cid) {
      c in db ==> format.refs(c, db[c]).Some?
    }

    predicate Good(c: Cid) {
      c in db && format.matches(c, db[c]) && format.refs(c, db[c]).Some?
    }

    /** The links of a present block that decodes; every other id has none. */
    function Links(c: Cid): seq<Cid> {
      if c in db && format.refs(c, db[c]).Some? then format.refs(c, db[c]).value else []
    }
  }

  /** The id at the end of a link path from `c`; a path lists the position of each link taken. */
  function Follow(s: Store, c: Cid, p: seq<nat>): Option<Cid>
    decreases |p|
  {
    if p == [] then Some(c)
    else if p[0] < |s.Links(c)| then Follow(s, s.Links(c)[p[0]], p[1..])
    else None
  }

  ghost predicate Reachable(s: Store, a: Cid, b: Cid) {
    exists p :: Follow(s, a, p) == Some(b)
  }

  /** Reachable over at least one link. */
  ghost predicate Beyond(s: Store, a: Cid, b: Cid) {
    exists d :: d in s.Links(a) && Reachable(s, d, b)
  }

  /** No id reachable from `c` lies on a cycle. */
  ghost predicate AcyclicFrom(s: Store, c: Cid) {
    forall d :: Reachable(s, c, d) ==> !Beyond(s, d, d)
  }

  // ----- paths

  lemma {:induction false} FollowConcat(s: Store, a: Cid, p: seq<nat>, q: seq<nat>)
    ensures Follow(s, a, p + q) == match Follow(s, a, p) case None => None case Some(b) => Follow(s, b, q)
    decreases |p|
  {
    if p == [] {
      assert p + q == q;
    } else {
      assert (p + q)[0] == p[0] && (p + q)[1..] == p[1..] + q;
      if p[0] < |s.Links(a)| { FollowConcat(s, s.Links(a)[p[0]], p[1..], q); }
    }
  }

  lemma ReachSelf(s: Store, a: Cid)
    ensures Reachable(s, a, a)
  {
    assert Follow(s, a, []) == Some(a);
  }

  lemma ReachTransitive(s: Store, a: Cid, b: Cid, c: Cid)
    requires Reachable(s, a, b) && Reachable(s, b, c)
    ensures Reachable(s, a, c)
  {
    var p :| Follow(s, a, p) == Some(b);
    var q :| Follow(s, b, q) == Some(c);
    FollowConcat(s, a, p, q);
  }

  lemma ReachLink(s: Store, a: Cid, d: Cid)
    requires d in s.Links(a)
    ensures Reachable(s, a, d)
  {
    var i :| 0 <= i < |s.Links(a)| && s.Links(a)[i] == d;
    assert Follow(s, a, [i]) == Follow(s, d, []);
  }

  /** A set of ids that holds all links of its members holds everything reachable from them. */
  lemma {:induction false} ClosedHoldsReachable(s: Store, closed: set<Cid>, a: Cid, p: seq<nat>)
    requires a in closed && Follow(s, a, p).Some?
    requires forall c, d :: c in closed && d in s.Links(c) ==> d in closed
    ensures Follow(s, a, p).value in closed
    decreases |p|
  {
    if p != [] {
      var d := s.Links(a)[p[0]];
      assert d in s.Links(a);
      ClosedHoldsReachable(s, closed, d, p[1..]);
    }
  }

  // ----- a finite acyclic graph is ranked

  ghost function Rank(s: Store, c: Cid): nat {
    if c in s.db then 1 + |set x | x in s.db.Keys && Beyond(s, c, x)| else 0
  }

  /** Along a link of an acyclic graph the rank falls, and the graph stays acyclic. */
  lemma RankFalls(s: Store, c: Cid, d: Cid)
    requires AcyclicFrom(s, c) && d in s.Links(c)
    ensures Rank(s, d) < Rank(s, c) && AcyclicFrom(s, d)
  {
    ReachLink(s, c, d);
    forall e | Reachable(s, d, e) ensures Reachable(s, c, e) { ReachTransitive(s, c, d, e); }
    if d in s.db {
      var fromC := set x | x in s.db.Keys && Beyond(s, c, x);
      var fromD := set x | x in s.db.Keys && Beyond(s, d, x);
      forall x | x in fromD ensures x in fromC {
        var e :| e in s.Links(d) && Reachable(s, e, x);
        ReachLink(s, d, e);
        ReachTransitive(s, d, e, x);
      }
      ReachSelf(s, d);
      assert d in fromC && d !in fromD;
      SubsetSmaller(fromD, fromC, d);
    }
  }

  lemma SubsetSmaller<T>(a: set<T>, b: set<T>, x: T)
    requires a <= b && x in b && x !in a
    ensures |a| < |b|
  {
    SubsetSize(a, b - {x});
  }

  lemma {:induction false} SubsetSize<T>(a: set<T>, b: set<T>)
    requires a <= b
    ensures |a| <= |b|
  {
    if a != {} {
      var x :| x in a;
      SubsetSize(a - {x}, b - {x});
    }
  }

  // ----- all link paths between two ids

  ghost function Prefixed(i: nat, ps: set<seq<nat>>): set<seq<nat>> {
    set p | p in ps :: [i] + p
  }

  /** The paths from `c` to `x` whose first link is at position i or later. */
  ghost function PathsVia(s: Store, c: Cid, i: nat, x: Cid): set<seq<nat>>
    requires AcyclicFrom(s, c)
    decreases Rank(s, c), |s.Links(c)| - i
  {
    if i >= |s.Links(c)| then {} else
    var d := s.Links(c)[i];
    assert d in s.Links(c);
    RankFalls(s, c, d);
    Prefixed(i, PathsVia(s, d, 0, x) + if d == x then {[]} else {}) + PathsVia(s, c, i + 1, x)
  }

  /** The link paths from `c` to `x`. */
  ghost function Paths(s: Store, c: Cid, x: Cid): set<seq<nat>>
    requires AcyclicFrom(s, c)
  {
    PathsVia(s, c, 0, x) + if c == x then {[]} else {}
  }

  lemma PathsViaSplit(s: Store, c: Cid, i: nat, x: Cid)
    requires AcyclicFrom(s, c) && i < |s.Links(c)| && AcyclicFrom(s, s.Links(c)[i])
    ensures PathsVia(s, c, i, x) == Prefixed(i, Paths(s, s.Links(c)[i], x)) + PathsVia(s, c, i + 1, x)
  {
    hide AcyclicFrom;
  }

  lemma PrefixedFirst(i: nat, ps: set<seq<nat>>, p: seq<nat>)
    requires p in Prefixed(i, ps)
    ensures p != [] && p[0] == i
  {
  }

  lemma {:induction false} PathsViaExact(s: Store, c: Cid, i: nat, x: Cid, p: seq<nat>)
    requires AcyclicFrom(s, c)
    ensures p in PathsVia(s, c, i, x) <==> p != [] && p[0] >= i && Follow(s, c, p) == Some(x)
    decreases Rank(s, c), |s.Links(c)| - i
  {
    if i < |s.Links(c)| {
      var d := s.Links(c)[i];
      assert d in s.Links(c);
      RankFalls(s, c, d);
      PathsViaExact(s, c, i + 1, x, p);
      var sub := PathsVia(s, d, 0, x) + if d == x then {[]} else {};
      assert PathsVia(s, c, i, x) == Prefixed(i, sub) + PathsVia(s, c, i + 1, x);
      if p != [] {
        PathsViaExact(s, d, 0, x, p[1..]);
        assert p == [p[0]] + p[1..];
        if p in Prefixed(i, sub) {
          var q :| q in sub && p == [i] + q;
          assert q == p[1..];
        }
      }
    }
  }

  /** `Paths` is the set of exactly the link paths, each once. */
  lemma PathsExact(s: Store, c: Cid, x: Cid, p: seq<nat>)
    requires AcyclicFrom(s, c)
    ensures p in Paths(s, c, x) <==> Follow(s, c, p) == Some(x)
  {
    PathsViaExact(s, c, 0, x, p);
  }

  lemma {:induction false} PrefixedSize(i: nat, ps: set<seq<nat>>)
    ensures |Prefixed(i, ps)| == |ps|
  {
    if ps != {} {
      var p :| p in ps;
      PrefixedSize(i, ps - {p});
      assert Prefixed(i, ps) == Prefixed(i, ps - {p}) + {[i] + p};
      assert forall q :: q in ps - {p} ==> ([i] + q)[1..] == q != p == ([i] + p)[1..];
    }
  }
}
