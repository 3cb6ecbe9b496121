/** The byte form of entries (src/serialize.rs) as plain functions: what is written, and what reading
    gives on any bytes whatever. The right child of an inode is not stored: reading rebuilds it from
    the inode before. */
module Serialize {
  import opened Words
  import opened Errors
  import opened Merkle
  import opened Entries

  const MAX_PAYLOAD_SIZE: nat := 0x7FFF_FFFF

  // ----- little-endian integers

  function Le(x: nat, n: nat): (s: Bytes)
    ensures |s| == n
  {
    if n == 0 then [] else [x % 256] + Le(x / 256, n - 1)
  }

  function FromLe(s: Bytes): nat {
    if s == [] then 0 else s[0] + 256 * FromLe(s[1..])
  }

  function Limit(n: nat): nat {
    if n == 0 then 1 else 256 * Limit(n - 1)
  }

  lemma {:induction false} LeRoundTrip(x: nat, n: nat)
    requires x < Limit(n)
    ensures FromLe(Le(x, n)) == x
  {
    if n > 0 {
      LeRoundTrip(x / 256, n - 1);
      assert Le(x, n)[1..] == Le(x / 256, n - 1);
    }
  }

  lemma {:induction false} FromLeBound(s: Bytes)
    ensures FromLe(s) < Limit(|s|)
  {
    if s != [] {
      FromLeBound(s[1..]);
    }
  }

  lemma Limits()
    ensures Limit(4) == TWO32 && Limit(8) == TWO64
  {
    assert Limit(4) == 256 * (256 * (256 * 256));
    assert Limit(8) == 256 * (256 * (256 * (256 * Limit(4))));
  }

  /** Byte t of a little-endian number is its digit of weight 256^t. */
  lemma {:induction false} LeDigit(x: nat, n: nat, t: nat)
    requires t < n
    ensures Limit(t) > 0 && Le(x, n)[t] == x / Limit(t) % 256
  {
    if t > 0 {
      LeDigit(x / 256, n - 1, t - 1);
      DivideTwice(x, Limit(t - 1));
    }
  }

  lemma DivideTwice(x: nat, b: nat)
    requires b > 0
    ensures x / (256 * b) == x / 256 / b
  {
    var q := x / 256;
    var u, v := q / b, q % b;
    Regroup(u, b);
    DivModIs(x, 256 * b, u, 256 * v + x % 256);
  }

  lemma Regroup(u: nat, b: nat)
    ensures u * (256 * b) == 256 * (u * b)
  {
  }

  lemma Weights()
    ensures Limit(0) == 1 && Limit(1) == 0x100 && Limit(2) == 0x1_0000 && Limit(3) == 0x100_0000
    ensures Limit(4) == 0x1_0000_0000 && Limit(5) == 0x100_0000_0000 && Limit(6) == 0x1_0000_0000_0000
    ensures Limit(7) == 0x100_0000_0000_0000 && Limit(8) == 0x1_0000_0000_0000_0000
  {
    assert Limit(4) == 256 * Limit(3);
    assert Limit(5) == 256 * Limit(4);
    assert Limit(6) == 256 * Limit(5);
    assert Limit(7) == 256 * Limit(6);
    assert Limit(8) == 256 * Limit(7);
  }

  lemma LeHead(b: byte, x: nat, n: nat)
    ensures Le(b + 256 * x, n + 1) == [b] + Le(x, n)
  {
    var y := b + 256 * x;
    assert y % 256 == b && y / 256 == x;
  }

  /** Any bytes are the little-endian form of the number read from them. */
  lemma {:induction false} LeOfFromLe(s: Bytes)
    ensures Le(FromLe(s), |s|) == s
    decreases |s|
  {
    if s != [] {
      LeOfFromLe(s[1..]);
      LeHead(s[0], FromLe(s[1..]), |s| - 1);
      assert s == [s[0]] + s[1..];
    }
  }

  // ----- writing

  function EncodeINode(d: INode): Bytes
    requires d.meta.address.j > 0
  {
    [(d.meta.address.j - 1) % INDEX_SIZE] + Le(d.left.position, 8) + Le(d.left.i, 8) + [d.left.j % 256] + d.meta.hash
  }

  function EncodeINodes(s: seq<INode>): (bytes: Bytes)
    requires forall k :: 0 <= k < |s| ==> s[k].meta.address.j > 0
    ensures |bytes| == |s| * INODE_LEN
  {
    if s == [] then [] else EncodeINodes(s[..|s| - 1]) + EncodeINode(s[|s| - 1])
  }

  /** What the writer asserts of an entry: its inodes are no leaves, and its lengths fit their fields. */
  predicate Writable(e: Entry) {
    && |e.enode.payload| <= MAX_PAYLOAD_SIZE && |e.inodes| <= 0xFF
    && forall k :: 0 <= k < |e.inodes| ==> e.inodes[k].meta.address.j > 0
  }

  function EncodeEntry(e: Entry): (bytes: Bytes)
    requires Writable(e)
  {
    Le(e.Index(), 8) + [|e.inodes| % 256] + EncodeINodes(e.inodes)
    + Le(|e.enode.payload|, 4) + e.enode.payload + e.enode.meta.hash
  }

  // ----- reading

  /** n bytes at position k. */
  function Take(bytes: Bytes, k: nat, n: nat): (r: Result<Bytes>)
    ensures r.Ok? <==> k + n <= |bytes|
    ensures r.Ok? ==> |r.value| == n
  {
    if k + n <= |bytes| then Ok(bytes[k..k + n]) else Err(UnexpectedEof)
  }

  function ReadINode(bytes: Bytes, k: nat, i: nat, position: nat, rightJ: nat): Result<INode> {
    var j :- Take(bytes, k, 1);
    var leftPosition :- Take(bytes, k + 1, 8);
    var leftI :- Take(bytes, k + 9, 8);
    var leftJ :- Take(bytes, k + 17, 1);
    var hash :- Take(bytes, k + 18, HASH_SIZE);
    Ok(INode(MetaInfo(Address(i, j[0] % INDEX_SIZE + 1, position), hash),
             Address(FromLe(leftI), leftJ[0], FromLe(leftPosition)),
             Address(i, rightJ, position)))
  }

  /** count inodes from position k, the first with a right child of height rightJ. */
  function ReadINodes(bytes: Bytes, k: nat, i: nat, position: nat, count: nat, rightJ: nat): (r: Result<seq<INode>>)
    ensures r.Ok? ==> |r.value| == count
    decreases count
  {
    if count == 0 then Ok([]) else
      var d :- ReadINode(bytes, k, i, position, rightJ);
      var rest :- ReadINodes(bytes, k + INODE_LEN, i, position, count - 1, d.meta.address.j);
      Ok([d] + rest)
  }

  /** The index and the inodes of the entry at position k. */
  function ReadHead(bytes: Bytes, k: nat, position: nat): (r: Result<(nat, seq<INode>)>)
    ensures r.Ok? ==> |r.value.1| < 256
  {
    var index :- Take(bytes, k, 8);
    var count :- Take(bytes, k + 8, 1);
    var inodes :- ReadINodes(bytes, k + 9, FromLe(index), position, count[0], 0);
    Ok((FromLe(index), inodes))
  }

  /** The entry stored at position k and the position after it. */
  function ReadEntry(bytes: Bytes, k: nat, position: nat): (r: Result<(Entry, nat)>)
    ensures r.Ok? ==> k <= r.value.1 <= |bytes|
  {
    var head :- ReadHead(bytes, k, position);
    var (i, inodes) := head;
    var k1 := k + 9 + |inodes| * INODE_LEN;
    var size :- Take(bytes, k1, 4);
    var payloadSize := FromLe(size) % (MAX_PAYLOAD_SIZE + 1);
    var payload :- Take(bytes, k1 + 4, payloadSize);
    var hash :- Take(bytes, k1 + 4 + payloadSize, HASH_SIZE);
    var enode := ENode(MetaInfo(Address(i, 0, position), hash), payload);
    Ok((Entry(enode, inodes), k1 + 4 + payloadSize + HASH_SIZE))
  }

  // ----- the round trip

  /** part stands at position k. */
  ghost predicate Stands(bytes: Bytes, k: nat, part: Bytes) {
    k + |part| <= |bytes| && bytes[k..k + |part|] == part
  }

  lemma StandsSplit(bytes: Bytes, k: nat, a: Bytes, b: Bytes)
    requires Stands(bytes, k, a + b)
    ensures Stands(bytes, k, a) && Stands(bytes, k + |a|, b)
  {
    assert a == (a + b)[..|a|] && b == (a + b)[|a|..];
  }

  /** An inode that survives being written: its numbers fit, and its right child is the node of the
      same entry that comes before it. */
  predicate StorableINode(d: INode, i: nat, position: nat, rightJ: nat)
    ensures StorableINode(d, i, position, rightJ) ==> d.meta.address.j > 0
  {
    && d.meta.address.i == i && d.meta.address.position == position && 0 < d.meta.address.j <= INDEX_SIZE
    && d.right == Address(i, rightJ, position)
    && d.left.i < TWO64 && d.left.j < 256 && d.left.position < TWO64
  }

  /** The height of the node before inode k of an entry. */
  function HeightBefore(s: seq<INode>, k: nat): nat
    requires k <= |s|
  {
    if k == 0 then 0 else s[k - 1].meta.address.j
  }

  predicate StorableINodes(s: seq<INode>, i: nat, position: nat) {
    forall k :: 0 <= k < |s| ==> StorableINode(s[k], i, position, HeightBefore(s, k))
  }

  /** An entry that is read back as it was written, when it is stored at its own position. */
  predicate Storable(e: Entry)
    ensures Storable(e) ==> Writable(e)
  {
    && e.enode.meta.address.j == 0 && e.Index() < TWO64
    && |e.enode.payload| <= MAX_PAYLOAD_SIZE && |e.inodes| <= 0xFF
    && StorableINodes(e.inodes, e.Index(), e.enode.meta.address.position)
  }

  lemma INodeRoundTrip(bytes: Bytes, k: nat, d: INode, i: nat, position: nat, rightJ: nat)
    requires StorableINode(d, i, position, rightJ) && Stands(bytes, k, EncodeINode(d))
    ensures ReadINode(bytes, k, i, position, rightJ) == Ok(d)
  {
    hide Le, FromLe, Limit;
    var a, b, c, f := [(d.meta.address.j - 1) % INDEX_SIZE], Le(d.left.position, 8), Le(d.left.i, 8), [d.left.j % 256];
    StandsSplit(bytes, k, a + b + c + f, d.meta.hash);
    StandsSplit(bytes, k, a + b + c, f);
    StandsSplit(bytes, k, a + b, c);
    StandsSplit(bytes, k, a, b);
    Limits();
    LeRoundTrip(d.left.position, 8);
    LeRoundTrip(d.left.i, 8);
  }

  lemma {:induction false} INodesRoundTrip(bytes: Bytes, k: nat, s: seq<INode>, i: nat, position: nat)
    requires StorableINodes(s, i, position) && Stands(bytes, k, EncodeINodes(s))
    ensures ReadINodes(bytes, k, i, position, |s|, 0) == Ok(s)
    decreases |s|
  {
    hide ReadINode, EncodeINode, Stands, StorableINode;
    if s != [] {
      var p, d := s[..|s| - 1], s[|s| - 1];
      assert d in s;
      assert EncodeINodes(s) == EncodeINodes(p) + EncodeINode(d);
      StandsSplit(bytes, k, EncodeINodes(p), EncodeINode(d));
      assert HeightBefore(s, |p|) == HeightBefore(p, |p|);
      assert forall t :: 0 <= t < |p| ==> p[t] == s[t] && HeightBefore(p, t) == HeightBefore(s, t);
      INodesRoundTrip(bytes, k, p, i, position);
      INodeRoundTrip(bytes, k + |p| * INODE_LEN, d, i, position, HeightBefore(p, |p|));
      ReadOneMore(bytes, k, i, position, p, 0, d);
      assert p + [d] == s;
    }
  }

  /** Reading one inode more, at the far end. */
  lemma {:induction false} ReadOneMore(bytes: Bytes, k: nat, i: nat, position: nat, p: seq<INode>, rightJ: nat,
                                       d: INode)
    requires ReadINodes(bytes, k, i, position, |p|, rightJ) == Ok(p)
    requires var before := if p == [] then rightJ else p[|p| - 1].meta.address.j;
      ReadINode(bytes, k + |p| * INODE_LEN, i, position, before) == Ok(d)
    ensures ReadINodes(bytes, k, i, position, |p| + 1, rightJ) == Ok(p + [d])
    decreases |p|
  {
    hide ReadINode;
    if p == [] {
      assert ReadINodes(bytes, k + INODE_LEN, i, position, 0, d.meta.address.j) == Ok([]);
      assert p + [d] == [d] + [];
    } else {
      ReadOneMore(bytes, k + INODE_LEN, i, position, p[1..], p[0].meta.address.j, d);
      assert p + [d] == [p[0]] + (p[1..] + [d]);
    }
  }

  /** What is written is read back as the same entry, and exactly its bytes are consumed, wherever they
      stand. */
  lemma EntryRoundTrip(bytes: Bytes, k: nat, e: Entry)
    requires Storable(e) && Stands(bytes, k, EncodeEntry(e))
    ensures ReadEntry(bytes, k, e.enode.meta.address.position) == Ok((e, k + |EncodeEntry(e)|))
  {
    hide Le, FromLe, Limit, EncodeINodes, ReadINodes;
    var a, b, c := Le(e.Index(), 8), [|e.inodes| % 256], EncodeINodes(e.inodes);
    var f, p, g := Le(|e.enode.payload|, 4), e.enode.payload, e.enode.meta.hash;
    StandsSplit(bytes, k, a + b + c + f + p, g);
    StandsSplit(bytes, k, a + b + c + f, p);
    StandsSplit(bytes, k, a + b + c, f);
    StandsSplit(bytes, k, a + b, c);
    StandsSplit(bytes, k, a, b);
    Limits();
    LeRoundTrip(e.Index(), 8);
    LeRoundTrip(|p|, 4);
    INodesRoundTrip(bytes, k + 9, e.inodes, e.Index(), e.enode.meta.address.position);
  }

  lemma {:induction false} INodesReadAreStorable(bytes: Bytes, k: nat, i: nat, position: nat, count: nat, rightJ: nat)
    requires ReadINodes(bytes, k, i, position, count, rightJ).Ok?
    ensures var s := ReadINodes(bytes, k, i, position, count, rightJ).value;
      forall t :: 0 <= t < |s| ==> StorableINode(s[t], i, position, if t == 0 then rightJ else HeightBefore(s, t))
    decreases count
  {
    hide Le, FromLe, Limit, ReadINode, StorableINode;
    if count > 0 {
      var d := ReadINode(bytes, k, i, position, rightJ).value;
      var rest := ReadINodes(bytes, k + INODE_LEN, i, position, count - 1, d.meta.address.j).value;
      INodeReadIsStorable(bytes, k, i, position, rightJ);
      INodesReadAreStorable(bytes, k + INODE_LEN, i, position, count - 1, d.meta.address.j);
      var s := [d] + rest;
      forall t | 0 <= t < |s|
        ensures StorableINode(s[t], i, position, if t == 0 then rightJ else HeightBefore(s, t))
      {
        if t > 0 {
          assert s[t] == rest[t - 1];
        }
      }
    }
  }

  lemma INodeReadIsStorable(bytes: Bytes, k: nat, i: nat, position: nat, rightJ: nat)
    requires ReadINode(bytes, k, i, position, rightJ).Ok?
    ensures StorableINode(ReadINode(bytes, k, i, position, rightJ).value, i, position, rightJ)
  {
    hide Le, FromLe, Limit;
    FromLeBound(Take(bytes, k + 1, 8).value);
    FromLeBound(Take(bytes, k + 9, 8).value);
    Limits();
  }

  /** Nothing but a storable entry is ever read. */
  lemma ReadIsStorable(bytes: Bytes, k: nat, position: nat)
    requires ReadEntry(bytes, k, position).Ok?
    ensures var e := ReadEntry(bytes, k, position).value.0; Storable(e) && e.enode.meta.address.position == position
  {
    hide Le, FromLe, Limit, ReadINodes, StorableINode;
    var e := ReadEntry(bytes, k, position).value.0;
    FromLeBound(Take(bytes, k, 8).value);
    Limits();
    INodesReadAreStorable(bytes, k + 9, e.Index(), position, |e.inodes|, 0);
  }

  /** The encoding leaves out the right children, among other things, so not every entry that can be
      written survives it: exactly the storable ones do. */
  lemma SurvivesIfStorable(bytes: Bytes, e: Entry)
    requires Writable(e) && Stands(bytes, e.enode.meta.address.position, EncodeEntry(e))
    ensures var k := e.enode.meta.address.position;
      ReadEntry(bytes, k, k) == Ok((e, k + |EncodeEntry(e)|)) <==> Storable(e)
  {
    hide Storable, ReadEntry, EncodeEntry, Stands;
    var k := e.enode.meta.address.position;
    if Storable(e) {
      EntryRoundTrip(bytes, k, e);
    }
    if ReadEntry(bytes, k, k) == Ok((e, k + |EncodeEntry(e)|)) {
      ReadIsStorable(bytes, k, k);
    }
  }

  /** An inode whose right child is not the node before it does not come back as it was. */
  lemma WrongRightIsLost(bytes: Bytes, e: Entry, k: nat)
    requires Writable(e) && Stands(bytes, e.enode.meta.address.position, EncodeEntry(e))
    requires k < |e.inodes| && e.inodes[k].right.j != HeightBefore(e.inodes, k)
    ensures var at := e.enode.meta.address.position;
      forall end :: ReadEntry(bytes, at, at) != Ok((e, end))
  {
    hide ReadEntry, EncodeEntry, Stands;
    var at := e.enode.meta.address.position;
    assert !StorableINode(e.inodes[k], e.Index(), at, HeightBefore(e.inodes, k));
    if ReadEntry(bytes, at, at).Ok? {
      ReadIsStorable(bytes, at, at);
    }
  }
}
