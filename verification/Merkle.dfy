/** Hash values and the reference they are checked against: the Merkle hash of a plain sequence of
    payloads. The hash function itself is a parameter; nothing is known about it except where
    CollisionFree is assumed, and then only of the inputs hashed in the trees at hand. */
module Merkle {
  import opened Words
  import opened Shape

  type byte = x: nat | x < 256
  type Bytes = seq<byte>

  const HASH_SIZE: nat := 32

  type Hash = v: Bytes | |v| == HASH_SIZE witness seq(HASH_SIZE, _ => 0)

  /** The two hash functions in use: digest(j, value) hashes the bytes of value after the height byte j;
      checksum guards the stored entries. */
  datatype Hashing = Hashing(digest: (nat, Bytes) -> Hash, checksum: Bytes -> u64) {
    function FromBytes(j: nat, value: Bytes): Hash {
      digest(j, value)
    }

    function Combine(left: Hash, j: nat, right: Hash): Hash {
      digest(j, left + right)
    }
  }

  /** The Merkle hash of a sequence: a single payload is hashed as a leaf; a longer sequence is cut
      after the largest power of two below its length, and the two hashes are combined under the
      height of the tree. */
  function MerkleHash(h: Hashing, xs: seq<Bytes>): Hash
    requires xs != []
    decreases |xs|
  {
    if |xs| == 1 then h.FromBytes(0, xs[0]) else
      HeightBounds(|xs|);
      var j := Height(|xs|);
      var k := Pow2(j - 1);
      h.Combine(MerkleHash(h, xs[..k]), j, MerkleHash(h, xs[k..]))
  }

  /** The hash node b_{i,j} has to carry: the Merkle hash of the payloads below it. */
  function NodeHash(h: Hashing, xs: seq<Bytes>, i: nat, j: nat): Hash
    requires 0 < i <= |xs|
  {
    MerkleHash(h, xs[Base(i, j)..i])
  }

  lemma NodeHashLeaf(h: Hashing, xs: seq<Bytes>, i: nat)
    requires 0 < i <= |xs|
    ensures NodeHash(h, xs, i, 0) == h.FromBytes(0, xs[i - 1])
  {
  }

  lemma NodeHashSplit(h: Hashing, xs: seq<Bytes>, i: nat, j: nat)
    requires IsNode(i, j) && 0 < j && i <= |xs|
    ensures var l, r := LeftOf(i, j), RightOf(i, j);
      && 0 < l.i <= |xs| && 0 < r.i <= |xs|
      && NodeHash(h, xs, i, j) == h.Combine(NodeHash(h, xs, l.i, l.j), j, NodeHash(h, xs, r.i, r.j))
  {
    hide Low, Pow2, BitLen, Base, LeftOf, RightOf, MerkleHash;
    NodeSplit(i, j);
    var l := LeftOf(i, j);
    var s := xs[Base(i, j)..i];
    assert s[..Pow2(j - 1)] == xs[Base(i, j)..l.i];
    assert s[Pow2(j - 1)..] == xs[l.i..i];
    MerkleSplit(h, s);
  }

  lemma MerkleSplit(h: Hashing, xs: seq<Bytes>)
    requires |xs| > 0 && Height(|xs|) > 0
    ensures var k := Pow2(Height(|xs|) - 1);
      0 < k < |xs| && MerkleHash(h, xs) == h.Combine(MerkleHash(h, xs[..k]), Height(|xs|), MerkleHash(h, xs[k..]))
  {
    HeightBounds(|xs|);
  }

  /** The Merkle hash written out: a leaf is hashed with height 0; 2^t < n <= 2^(t + 1) leaves with height
      t + 1, the hash of the first 2^t before that of the others. */
  lemma MerkleCut(h: Hashing, xs: seq<Bytes>, t: nat)
    ensures |xs| == 1 ==> MerkleHash(h, xs) == h.digest(0, xs[0])
    ensures 0 < Pow2(t) < |xs| <= Pow2(t + 1) ==>
      var left, right := MerkleHash(h, xs[..Pow2(t)]), MerkleHash(h, xs[Pow2(t)..]);
      MerkleHash(h, xs) == h.digest(t + 1, left + right)
  {
    hide MerkleHash, Pow2, BitLen;
    if |xs| == 1 {
      var _ := TopInput(h, xs);
    } else if Pow2(t) < |xs| <= Pow2(t + 1) {
      BitLenUnique(|xs| - 1, t + 1);
      MerkleSplit(h, xs);
    }
  }

  lemma RootHash(h: Hashing, xs: seq<Bytes>)
    requires xs != []
    ensures NodeHash(h, xs, |xs|, Height(|xs|)) == MerkleHash(h, xs)
  {
    RootIsNode(|xs|);
    assert xs[0..|xs|] == xs;
  }

  /** Node hashes depend on nothing after the node. */
  lemma NodeHashPrefix(h: Hashing, xs: seq<Bytes>, ys: seq<Bytes>, i: nat, j: nat)
    requires 0 < i <= |xs| && i <= |ys| && xs[..i] == ys[..i]
    ensures NodeHash(h, xs, i, j) == NodeHash(h, ys, i, j)
  {
    assert xs[Base(i, j)..i] == xs[..i][Base(i, j)..];
    assert ys[Base(i, j)..i] == ys[..i][Base(i, j)..];
  }

  // ----- what a root hash pins down

  /** Everything that is hashed on the way to MerkleHash(h, xs). */
  function Inputs(h: Hashing, xs: seq<Bytes>): set<(nat, Bytes)>
    requires xs != []
    decreases |xs|
  {
    if |xs| == 1 then {(0, xs[0])} else
      HeightBounds(|xs|);
      var j := Height(|xs|);
      var k := Pow2(j - 1);
      {(j, MerkleHash(h, xs[..k]) + MerkleHash(h, xs[k..]))} + Inputs(h, xs[..k]) + Inputs(h, xs[k..])
  }

  /** No two different inputs in s have the same digest. */
  ghost predicate CollisionFree(h: Hashing, s: set<(nat, Bytes)>) {
    forall a, b | a in s && b in s :: h.digest(a.0, a.1) == h.digest(b.0, b.1) ==> a == b
  }

  /** The root hash determines the whole sequence, its length included: two sequences with the same
      Merkle hash are equal unless computing the hashes meets a collision. */
  lemma {:induction false} MerkleBinds(h: Hashing, xs: seq<Bytes>, ys: seq<Bytes>)
    requires xs != [] && ys != [] && MerkleHash(h, xs) == MerkleHash(h, ys)
    requires CollisionFree(h, Inputs(h, xs) + Inputs(h, ys))
    ensures xs == ys
    decreases |xs|
  {
    hide MerkleHash, Inputs, Pow2, BitLen;
    var all := Inputs(h, xs) + Inputs(h, ys);
    HeightBounds(|xs|);
    HeightBounds(|ys|);
    var a := TopInput(h, xs);
    var b := TopInput(h, ys);
    assert a in all && b in all;
    assert a == b;
    if |xs| > 1 {
      assert |ys| > 1;
      var k := Pow2(Height(|xs|) - 1);
      SplitEqual(MerkleHash(h, xs[..k]), MerkleHash(h, xs[k..]), MerkleHash(h, ys[..k]), MerkleHash(h, ys[k..]));
      MerkleBinds(h, xs[..k], ys[..k]);
      MerkleBinds(h, xs[k..], ys[k..]);
      assert xs == xs[..k] + xs[k..] && ys == ys[..k] + ys[k..];
    }
  }

  lemma SplitEqual<T>(a: seq<T>, b: seq<T>, c: seq<T>, d: seq<T>)
    requires |a| == |c| && a + b == c + d
    ensures a == c && b == d
  {
    assert a == (a + b)[..|a|] && b == (a + b)[|a|..];
    assert c == (c + d)[..|c|] && d == (c + d)[|c|..];
  }

  /** The input of the last hash on the way to MerkleHash(h, xs). */
  lemma TopInput(h: Hashing, xs: seq<Bytes>) returns (a: (nat, Bytes))
    requires xs != []
    ensures a in Inputs(h, xs) && MerkleHash(h, xs) == h.digest(a.0, a.1) && a.0 == Height(|xs|)
    ensures |xs| == 1 ==> a.1 == xs[0]
    ensures |xs| > 1 ==> var k := Pow2(Height(|xs|) - 1);
      && 0 < k < |xs| && a.1 == MerkleHash(h, xs[..k]) + MerkleHash(h, xs[k..])
      && Inputs(h, xs[..k]) + Inputs(h, xs[k..]) <= Inputs(h, xs)
  {
    HeightBounds(|xs|);
    if |xs| == 1 {
      a := (0, xs[0]);
    } else {
      var k := Pow2(Height(|xs|) - 1);
      a := (Height(|xs|), MerkleHash(h, xs[..k]) + MerkleHash(h, xs[k..]));
    }
  }

  /** The inputs hashed on the way to the hash of b_{i,j}. */
  function NodeInputs(h: Hashing, xs: seq<Bytes>, i: nat, j: nat): set<(nat, Bytes)>
    requires 0 < i <= |xs|
  {
    Inputs(h, xs[Base(i, j)..i])
  }

  lemma NodeInputsSplit(h: Hashing, xs: seq<Bytes>, i: nat, j: nat)
    requires IsNode(i, j) && 0 < j && i <= |xs|
    ensures var l, r := LeftOf(i, j), RightOf(i, j);
      && 0 < l.i <= |xs| && 0 < r.i <= |xs|
      && NodeInputs(h, xs, l.i, l.j) + NodeInputs(h, xs, r.i, r.j) <= NodeInputs(h, xs, i, j)
  {
    hide Low, Pow2, BitLen, Base, LeftOf, RightOf, MerkleHash, Inputs;
    NodeSplit(i, j);
    var l := LeftOf(i, j);
    var s := xs[Base(i, j)..i];
    assert s[..Pow2(j - 1)] == xs[Base(i, j)..l.i];
    assert s[Pow2(j - 1)..] == xs[l.i..i];
    var _ := TopInput(h, s);
  }
}
