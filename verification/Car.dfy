/**
 * `car_size` (crates/ursa-store/src/store.rs:70-86) against the byte stream it measures: a CARv1
 * stream is the header, then each block, every one of them preceded by its length as an unsigned
 * LEB128 integer (CARv1 specification, Header and Data sections).
 */
module Car {
  import opened Prelude
  import opened DagGraph
  import opened DagWalks

  /** Unsigned LEB128: seven bits a byte, least significant first, the high bit set on all but the last. */
  function Varint(n: nat): (b: Bytes)
    ensures |b| >= 1
  {
    if n < 128 then [n as byte] else [(n % 128 + 128) as byte] + Varint(n / 128)
  }

  /** Reads an LEB128 integer: its value and the bytes after it. */
  function ReadVarint(b: Bytes): Option<(nat, Bytes)> {
    if b == [] then None
    else if b[0] < 128 then Some((b[0] as nat, b[1..]))
    else match ReadVarint(b[1..])
      case None => None
      case Some((n, rest)) => Some((n * 128 + (b[0] as nat - 128), rest))
  }

  lemma {:induction false} VarintRoundTrip(n: nat, rest: Bytes)
    ensures ReadVarint(Varint(n) + rest) == Some((n, rest))
  {
    var b := Varint(n) + rest;
    if n < 128 {
      assert b[1..] == rest;
    } else {
      assert b[1..] == Varint(n / 128) + rest;
      VarintRoundTrip(n / 128, rest);
    }
  }

  function Power(k: nat): nat {
    if k == 0 then 1 else 128 * Power(k - 1)
  }

  /** `n` is written with k digits of seven bits and no fewer. */
  predicate HasDigits(n: nat, k: nat) {
    k >= 1 && n < Power(k) && (k > 1 ==> Power(k - 1) <= n)
  }

  lemma {:induction false} PowerGrows(j: nat, k: nat)
    requires j <= k
    ensures Power(j) <= Power(k)
  {
    if j < k { PowerGrows(j, k - 1); }
  }

  lemma DigitsUnique(n: nat, j: nat, k: nat)
    requires HasDigits(n, j) && HasDigits(n, k)
    ensures j == k
  {
    if j < k { PowerGrows(j, k - 1); }
    if k < j { PowerGrows(k, j - 1); }
  }

  /** An encoded length takes exactly as many bytes as it has digits of seven bits. */
  lemma {:induction false} VarintLength(n: nat)
    ensures HasDigits(n, |Varint(n)|)
  {
    if n < 128 {
      assert Power(1) == 128 * Power(0);
    } else {
      VarintLength(n / 128);
      var k := |Varint(n / 128)|;
      assert Power(k + 1) == 128 * Power(k);
      assert Power(k) == 128 * Power(k - 1);
    }
  }

  /** No encoding that reads back as `n` is shorter. */
  lemma {:induction false} VarintShortest(b: Bytes)
    ensures match ReadVarint(b)
            case None => true
            case Some((n, rest)) => |Varint(n)| + |rest| <= |b|
  {
    if b != [] && b[0] >= 128 && ReadVarint(b[1..]).Some? {
      VarintShortest(b[1..]);
      var (n, rest) := ReadVarint(b[1..]).value;
      var low := b[0] as nat - 128;
      assert (n * 128 + low) / 128 == n;
    }
  }

  /** The number of digits of seven bits of `n`. */
  ghost function Digits(n: nat): (k: nat)
    ensures HasDigits(n, k) && forall j :: HasDigits(n, j) ==> j == k
  {
    VarintLength(n);
    forall j | HasDigits(n, j) ensures j == |Varint(n)| { DigitsUnique(n, j, |Varint(n)|); }
    var k :| HasDigits(n, k);
    k
  }

  /** The block as it stands in the stream. */
  function Framed(s: Store, b: (Cid, Bytes)): Bytes {
    Varint(|s.format.cidBytes(b.0)| + |b.1|) + s.format.cidBytes(b.0) + b.1
  }

  function Body(s: Store, blocks: seq<(Cid, Bytes)>): Bytes {
    if blocks == [] then [] else Body(s, Front(blocks)) + Framed(s, Last(blocks))
  }

  function CarStream(s: Store, root: Cid, blocks: seq<(Cid, Bytes)>): Bytes {
    Varint(|s.format.header(root)|) + s.format.header(root) + Body(s, blocks)
  }

  /** The size of a stored block in the stream: its id and its bytes, and the digits of their length. */
  ghost function BlockSize(s: Store, c: Cid): nat {
    if c !in s.db then 0 else
    var len := |s.format.cidBytes(c)| + |s.db[c]|;
    Digits(len) + len
  }

  lemma FramedSize(s: Store, c: Cid)
    requires c in s.db
    ensures |Framed(s, (c, s.db[c]))| == BlockSize(s, c)
  {
    VarintLength(|s.format.cidBytes(c)| + |s.db[c]|);
  }

  lemma LastCid(s: Store, blocks: seq<(Cid, Bytes)>)
    requires Lists(s, blocks) && blocks != []
    ensures Lists(s, Front(blocks)) && Last(blocks).0 in s.db && Last(blocks).1 == s.db[Last(blocks).0]
    ensures Last(blocks).0 in Cids(blocks) && Cids(blocks) - {Last(blocks).0} == Cids(Front(blocks))
  {
    var (rest, b) := (Front(blocks), Last(blocks));
    assert blocks == rest + [b];
    assert b in blocks && forall x :: x in rest ==> x in blocks;
    assert forall i :: 0 <= i < |rest| ==> rest[i].0 != b.0;
  }

  /** The length of the blocks' part is a sum over the ids, so it does not depend on their order. */
  lemma {:induction false} BodySize(s: Store, blocks: seq<(Cid, Bytes)>)
    requires Lists(s, blocks)
    ensures |Body(s, blocks)| == Sum(Cids(blocks), c => BlockSize(s, c))
    decreases |blocks|
  {
    if blocks == [] {
      assert Cids(blocks) == {};
    } else {
      hide Lists, Cids, Framed, BlockSize;
      LastCid(s, blocks);
      FramedSize(s, Last(blocks).0);
      BodySize(s, Front(blocks));
      SumSplit(Cids(blocks), c => BlockSize(s, c), Last(blocks).0);
    }
  }

  /** Whatever order two traversals visit the blocks in, their streams are equally long. */
  lemma OrderIrrelevant(s: Store, root: Cid, a: seq<(Cid, Bytes)>, b: seq<(Cid, Bytes)>)
    requires IsTraversal(s, root, Ok(a)) && IsTraversal(s, root, Ok(b))
    ensures |CarStream(s, root, a)| == |CarStream(s, root, b)|
  {
    assert Cids(a) == Cids(b) by {
      assert forall c :: c in Cids(a) <==> Reachable(s, root, c);
    }
    BodySize(s, a);
    BodySize(s, b);
  }

  /** The size of the CAR file of a complete DAG: the header body and, for every reachable block, its
      id, its bytes and the digits of their length, in whatever order the blocks are listed. That is the
      length of the CARv1 stream less the length prefix of its header. */
  method CarSize(s: Store, root: Cid) returns (r: Result<nat, WalkError>)
    ensures r.Ok? <==> forall c :: Reachable(s, root, c) ==> s.Good(c)
    ensures r.Err? ==> IsTraversal(s, root, Err(r.error))
    ensures r.Ok? ==> exists blocks :: IsTraversal(s, root, Ok(blocks))
    ensures r.Ok? ==> forall blocks :: IsTraversal(s, root, Ok(blocks)) ==>
              && r.value == |s.format.header(root)| + Sum(Cids(blocks), c => BlockSize(s, c))
              && |CarStream(s, root, blocks)| == r.value + Digits(|s.format.header(root)|)
  {
    hide Reachable;
    var dag := DagTraversal(s, root);
    if dag.Err? { return Err(dag.error); }
    var len := |s.format.header(root)|;
    for i := 0 to |dag.value|
      invariant len == |s.format.header(root)| + |Body(s, dag.value[..i])|
    {
      var (cid, bytes) := dag.value[i];
      var blockLen := |bytes| + |s.format.cidBytes(cid)|;
      assert Front(dag.value[..i + 1]) == dag.value[..i] && Last(dag.value[..i + 1]) == dag.value[i];
      len := len + |Varint(blockLen)|;
      len := len + blockLen;
    }
    assert dag.value[..|dag.value|] == dag.value;
    forall blocks | IsTraversal(s, root, Ok(blocks))
      ensures len == |s.format.header(root)| + |Body(s, blocks)|
      ensures |Body(s, blocks)| == Sum(Cids(blocks), c => BlockSize(s, c))
    {
      OrderIrrelevant(s, root, dag.value, blocks);
      BodySize(s, blocks);
    }
    VarintLength(|s.format.header(root)|);
    return Ok(len);
  }
}
