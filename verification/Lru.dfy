/**
 * The gateway's least-recently-used list: a hash map into a doubly linked list of heap nodes
 * (crates/ursa-gateway/src/cache/lru.rs). The list is specified by the sequence of its
 * (key, value) pairs from head to tail.
 */
module Lru {
  import opened Prelude

  // ----- the specification: a sequence of pairs with distinct keys

  ghost predicate DistinctKeys<K, V>(s: seq<(K, V)>) {
    forall i, j :: 0 <= i < j < |s| ==> s[i].0 != s[j].0
  }

  /** The position of key `k`, or |s| when it is absent. */
  function IndexOf<K(==), V>(s: seq<(K, V)>, k: K): (i: nat)
    ensures i <= |s|
    ensures i < |s| ==> s[i].0 == k
    ensures forall j :: 0 <= j < i ==> s[j].0 != k
  {
    if s == [] || s[0].0 == k then 0 else 1 + IndexOf(s[1..], k)
  }

  function Lookup<K(==), V>(s: seq<(K, V)>, k: K): Option<V> {
    var i := IndexOf(s, k);
    if i < |s| then Some(s[i].1) else None
  }

  function Without<K(==), V>(s: seq<(K, V)>, k: K): seq<(K, V)> {
    var i := IndexOf(s, k);
    if i < |s| then Cut(s, i) else s
  }

  function TailKey<K, V>(s: seq<(K, V)>): Option<K> {
    if s == [] then None else Some(s[|s| - 1].0)
  }

  datatype LruError = Duplicate | NoHead

  /** The list after `insert`: the first pair makes room when the list is at its capacity. */
  function Inserted<K(==), V>(s: seq<(K, V)>, cap: Option<nat>, k: K, v: V): Result<seq<(K, V)>, LruError> {
    if Lookup(s, k).Some? then Err(Duplicate)
    else if cap.Some? && cap.value <= |s| then
      if s == [] then Err(NoHead) else Ok(s[1..] + [(k, v)])
    else Ok(s + [(k, v)])
  }

  /** An insertion fails exactly on a present key or on a list that can hold nothing; otherwise the pair
      comes last, behind all others or, in a full list, behind all but the first. */
  lemma InsertedLast<K, V>(s: seq<(K, V)>, cap: Option<nat>, k: K, v: V)
    requires DistinctKeys(s) && (cap.Some? ==> |s| <= cap.value)
    ensures var r := Inserted(s, cap, k, v);
            && (r == Err(Duplicate) <==> IndexOf(s, k) < |s|)
            && (r == Err(NoHead) <==> s == [] && cap == Some(0))
            && (r.Ok? ==>
                  && r.value != [] && Last(r.value) == (k, v) && DistinctKeys(r.value)
                  && Front(r.value) == s[|s| + 1 - |r.value|..]
                  && |r.value| == if cap == Some(|s|) then |s| else |s| + 1)
  {
    hide DistinctKeys, IndexOf;
    if IndexOf(s, k) == |s| && cap != Some(0) {
      AppendDistinct(s, k, v);
      if cap == Some(|s|) {
        assert Front(s[1..] + [(k, v)]) == s[1..];
      } else {
        assert Front(s + [(k, v)]) == s == s[0..];
      }
    }
  }

  lemma AppendDistinct<K, V>(s: seq<(K, V)>, k: K, v: V)
    requires DistinctKeys(s) && IndexOf(s, k) == |s|
    ensures DistinctKeys(s + [(k, v)])
    ensures s != [] ==> DistinctKeys(s[1..] + [(k, v)])
  {
    assert forall i :: 0 <= i < |s| ==> s[i].0 != k;
  }

  lemma InsertedUncapped<K, V>(s: seq<(K, V)>, k: K, v: V)
    ensures Inserted(s, None, k, v) == if Lookup(s, k).Some? then Err(Duplicate) else Ok(s + [(k, v)])
  {
  }

  lemma IndexOfDistinct<K, V>(s: seq<(K, V)>, i: nat)
    requires DistinctKeys(s) && i < |s|
    ensures IndexOf(s, s[i].0) == i
  {
    var j := IndexOf(s, s[i].0);
    assert j <= i;
  }

  /** Removing a key takes out exactly its pair and keeps the keys distinct. */
  lemma WithoutMembers<K, V>(s: seq<(K, V)>, k: K)
    requires DistinctKeys(s)
    ensures DistinctKeys(Without(s, k))
    ensures forall p :: p in Without(s, k) <==> p in s && p.0 != k
  {
    var i := IndexOf(s, k);
    if i < |s| {
      forall p | p in s && p.0 != k ensures p in Without(s, k) {
        var j :| 0 <= j < |s| && s[j] == p;
        assert p == Without(s, k)[if j < i then j else j - 1];
      }
    }
  }

  // ----- the implementation

  class Node<K> {
    var next: Node?<K>
    var prev: Node?<K>
    const data: K
    ghost const owner: object

    constructor (data: K, prev: Node?<K>, ghost owner: object)
      ensures this.data == data && this.prev == prev && next == null && this.owner == owner
    {
      this.data, this.prev, this.next, this.owner := data, prev, null, owner;
    }
  }

  datatype Data<K, V> = Data(value: V, node: Node<K>)

  /** The nodes hold distinct keys, exactly those of the hash map, which knows each key's node. */
  ghost predicate Stored<K, V>(store: map<K, Data<K, V>>, spine: seq<Node<K>>) {
    && (forall i, j {:trigger spine[i], spine[j]} :: 0 <= i < j < |spine| ==> spine[i].data != spine[j].data)
    && (forall i {:trigger spine[i]} :: 0 <= i < |spine| ==>
          spine[i].data in store && store[spine[i].data].node == spine[i])
    && (forall k {:trigger k in store} :: k in store ==> store[k].node in spine && store[k].node.data == k)
  }

  ghost function Pairs<K, V>(store: map<K, Data<K, V>>, spine: seq<Node<K>>): (s: seq<(K, V)>)
    requires Stored(store, spine)
    ensures |s| == |spine| && DistinctKeys(s)
  {
    seq(|spine|, i requires 0 <= i < |spine| => (spine[i].data, store[spine[i].data].value))
  }

  lemma PairsLookup<K, V>(store: map<K, Data<K, V>>, spine: seq<Node<K>>, k: K)
    requires Stored(store, spine)
    ensures k in store <==> Lookup(Pairs(store, spine), k).Some?
    ensures k in store ==> Lookup(Pairs(store, spine), k) == Some(store[k].value)
    ensures k in store ==> spine[IndexOf(Pairs(store, spine), k)] == store[k].node
  {
    if k in store {
      var j :| 0 <= j < |spine| && spine[j] == store[k].node;
      IndexOfDistinct(Pairs(store, spine), j);
    }
  }

  lemma StoredRemoved<K, V>(store: map<K, Data<K, V>>, spine: seq<Node<K>>, i: nat)
    requires Stored(store, spine) && i < |spine|
    ensures Stored(store - {spine[i].data}, Cut(spine, i))
  {
  }

  lemma PairsRemoved<K, V>(store: map<K, Data<K, V>>, spine: seq<Node<K>>, i: nat)
    requires Stored(store, spine) && i < |spine|
    ensures Stored(store - {spine[i].data}, Cut(spine, i))
    ensures Pairs(store - {spine[i].data}, Cut(spine, i)) == Without(Pairs(store, spine), spine[i].data)
  {
    StoredRemoved(store, spine, i);
    IndexOfDistinct(Pairs(store, spine), i);
    assert Pairs(store - {spine[i].data}, Cut(spine, i)) == Cut(Pairs(store, spine), i);
  }

  lemma PairsAppended<K, V>(store: map<K, Data<K, V>>, spine: seq<Node<K>>, node: Node<K>, v: V)
    requires Stored(store, spine) && node.data !in store
    ensures Stored(store[node.data := Data(v, node)], spine + [node])
    ensures Pairs(store[node.data := Data(v, node)], spine + [node]) == Pairs(store, spine) + [(node.data, v)]
  {
  }

  class List<K(==), V> {
    var store: map<K, Data<K, V>>
    var head: Node?<K>
    var tail: Node?<K>
    const cap: Option<nat>
    /** The nodes from head to tail. */
    ghost var spine: seq<Node<K>>

    /** From head to tail, `next` and `prev` are mutual inverses along the spine. */
    ghost predicate Linked()
      reads this, spine
    {
      && Distinct(spine)
      && (forall i {:trigger spine[i]} :: 0 <= i < |spine| ==> spine[i].owner == this)
      && (forall i {:trigger spine[i].prev} :: 0 <= i < |spine| ==>
            spine[i].prev == if i == 0 then null else spine[i - 1])
      && (forall i {:trigger spine[i].next} :: 0 <= i < |spine| ==>
            spine[i].next == if i == |spine| - 1 then null else spine[i + 1])
      && head == (if spine == [] then null else spine[0])
      && tail == (if spine == [] then null else spine[|spine| - 1])
    }

    ghost predicate Valid()
      reads this, spine
    {
      Linked() && Stored(store, spine) && (cap.Some? ==> |spine| <= cap.value)
    }

    ghost function Contents(): (s: seq<(K, V)>)
      requires Valid()
      reads this, spine
      ensures DistinctKeys(s)
      ensures cap.Some? ==> |s| <= cap.value
    {
      Pairs(store, spine)
    }

    constructor (cap: Option<nat>)
      ensures Valid() && Contents() == [] && this.cap == cap && spine == []
    {
      this.store, this.head, this.tail, this.cap, this.spine := map[], null, null, cap, [];
    }

    method GetTailKey() returns (k: Option<K>)
      requires Valid()
      ensures k == TailKey(Contents())
    {
      if tail == null { return None; }
      return Some(tail.data);
    }

    method IsEmpty() returns (e: bool)
      requires Valid()
      ensures e <==> Contents() == []
    {
      e := |store| == 0;
      assert spine != [] ==> spine[0].data in store;
      if store.Keys != {} { var k :| k in store; }
    }

    method Contains(k: K) returns (c: bool)
      requires Valid()
      ensures c <==> Lookup(Contents(), k).Some?
    {
      c := k in store;
      PairsLookup(store, spine, k);
    }

    /** Takes the i-th node out of the chain. */
    method Unlink(node: Node<K>, ghost i: nat)
      requires Linked() && i < |spine| && spine[i] == node
      modifies this`head, this`tail, this`spine, spine
      ensures Linked() && spine == Cut(old(spine), i)
    {
      var prev, next := node.prev, node.next;
      assert next == if i == |spine| - 1 then null else spine[i + 1];
      assert prev == if i == 0 then null else spine[i - 1];
      if next != null { next.prev := prev; } else { tail := prev; }
      if prev != null { prev.next := next; } else { head := next; }
      spine := Cut(spine, i);
    }

    method Remove(k: K) returns (r: Option<V>)
      requires Valid()
      modifies this, spine
      ensures Valid()
      ensures r == Lookup(old(Contents()), k)
      ensures Contents() == Without(old(Contents()), k)
      ensures forall n :: n in spine ==> n in old(spine)
    {
      hide Stored, Distinct, DistinctKeys;
      PairsLookup(store, spine, k);
      if k !in store { return None; }
      var data := store[k];
      ghost var i := IndexOf(Contents(), k);
      PairsRemoved(store, spine, i);
      store := store - {k};
      Unlink(data.node, i);
      return Some(data.value);
    }

    method RemoveHead() returns (r: Result<Option<V>, LruError>)
      requires Valid()
      modifies this, spine
      ensures Valid()
      ensures forall n :: n in spine ==> n in old(spine)
      ensures old(Contents()) == [] ==> r == Err(NoHead) && Contents() == []
      ensures old(Contents()) != [] ==> r == Ok(Some(old(Contents())[0].1)) && Contents() == old(Contents())[1..]
    {
      if head == null { return Err(NoHead); }
      ghost var before := Contents();
      assert IndexOf(before, head.data) == 0;
      var v := Remove(head.data);
      return Ok(v);
    }

    /** The hash map and the linked list have the same number of entries. */
    lemma StoreSize()
      requires Valid()
      ensures |store| == |spine|
    {
      var keys := seq(|spine|, i requires 0 <= i < |spine| reads this, spine => spine[i].data);
      DistinctCount(keys);
      assert forall k :: k in store ==> k in keys by {
        forall k | k in store ensures k in keys {
          var i :| 0 <= i < |spine| && spine[i] == store[k].node;
          assert keys[i] == k;
        }
      }
      assert store.Keys == set k | k in keys;
    }

    /** Links a new node behind the tail. */
    method Link(node: Node<K>)
      requires Linked() && node.owner == this && node.prev == tail && node.next == null && node !in spine
      modifies this`head, this`tail, this`spine, spine
      ensures Linked() && spine == old(spine) + [node]
    {
      if tail != null { tail.next := node; }
      tail := node;
      if head == null { head := node; }
      spine := spine + [node];
    }

    method Append(k: K, v: V)
      requires Valid() && Lookup(Contents(), k).None? && (cap.Some? ==> |spine| < cap.value)
      modifies this, spine
      ensures Valid()
      ensures forall n :: n in spine ==> n in old(spine) || fresh(n)
      ensures Contents() == old(Contents()) + [(k, v)]
    {
      hide Stored, Distinct, DistinctKeys;
      PairsLookup(store, spine, k);
      var node := new Node(k, tail, this);
      PairsAppended(store, spine, node, v);
      store := store[k := Data(v, node)];
      Link(node);
    }

    method Insert(k: K, v: V) returns (r: Result<(), LruError>)
      requires Valid()
      modifies this, spine
      ensures Valid()
      ensures forall n :: n in spine ==> n in old(spine) || fresh(n)
      ensures var after := Inserted(old(Contents()), cap, k, v);
              && r == (if after.Ok? then Ok(()) else Err(after.error))
              && Contents() == if after.Ok? then after.value else old(Contents())
    {
      ghost var before := Contents();
      var present := Contains(k);
      if present { return Err(Duplicate); }
      StoreSize();
      if cap.Some? && cap.value <= |store| {
        var removed := RemoveHead();
        if removed.Err? { return Err(removed.error); }
      }
      Append(k, v);
      return Ok(());
    }
  }

  /** Two lists never share a node. */
  lemma SpinesDisjoint<K, V>(a: List<K, V>, b: List<K, V>)
    requires a.Valid() && b.Valid() && a != b
    ensures forall n :: n in a.spine ==> n !in b.spine
  {
  }

  twostate lemma Untouched<K, V>(l: List<K, V>)
    requires old(l.Valid()) && unchanged(l) && forall n: Node<K> :: n in l.spine ==> unchanged(n)
    ensures l.Valid() && l.Contents() == old(l.Contents())
  {
  }
}
