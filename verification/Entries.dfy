/** The records of src/lib.rs, and the one entry that element i of a given payload sequence must
    produce. Every part of a Slate's state is compared with these. */
module Entries {
  import opened Errors
  import opened Merkle
  import Shape

  /** Where the entry holding b_{i,j} is stored. */
  datatype Address = Address(i: nat, j: nat, position: nat)

  datatype MetaInfo = MetaInfo(address: Address, hash: Hash)

  datatype INode = INode(meta: MetaInfo, left: Address, right: Address)

  datatype ENode = ENode(meta: MetaInfo, payload: Bytes)

  datatype Entry = Entry(enode: ENode, inodes: seq<INode>) {
    function Index(): nat {
      enode.meta.address.i
    }

    function Root(): MetaInfo {
      if inodes != [] then inodes[|inodes| - 1].meta else enode.meta
    }

    /** The position of the inode of height j, |inodes| if there is none. */
    function Find(j: nat, from: nat): nat
      requires from <= |inodes|
      decreases |inodes| - from
    {
      if from == |inodes| || inodes[from].meta.address.j == j then from else Find(j, from + 1)
    }

    function InodeAt(j: nat): Option<INode> {
      var k := Find(j, 0);
      FindInRange(j, 0);
      if k < |inodes| then Some(inodes[k]) else None
    }

    lemma FindInRange(j: nat, from: nat)
      requires from <= |inodes|
      ensures from <= Find(j, from) <= |inodes|
      ensures Find(j, from) < |inodes| ==> inodes[Find(j, from)].meta.address.j == j
      ensures forall k :: from <= k < Find(j, from) ==> inodes[k].meta.address.j != j
      decreases |inodes| - from
    {
    }

    function Meta(j: nat): Option<MetaInfo> {
      if j == 0 then Some(enode.meta)
      else match InodeAt(j) case Some(inode) => Some(inode.meta) case None => None
    }
  }

  // ----- the entries of a payload sequence

  const HEADER_LEN: nat := 4
  const INODE_LEN: nat := 18 + HASH_SIZE
  const DELIMITER_LEN: nat := 12

  /** Bytes taken by entry i with a payload of the given length, without and with its delimiter. */
  function EntryLen(i: nat, payloadLen: nat): nat
    requires i > 0
  {
    9 + |Shape.Inodes(i)| * INODE_LEN + 4 + payloadLen + HASH_SIZE
  }

  /** Where entry i starts in the log of xs; for i = |xs| + 1, where the log ends. */
  function Position(xs: seq<Bytes>, i: nat): nat
    requires 0 < i <= |xs| + 1
  {
    if i == 1 then HEADER_LEN else Position(xs, i - 1) + EntryLen(i - 1, |xs[i - 2]|) + DELIMITER_LEN
  }

  function AddressOf(xs: seq<Bytes>, a: Shape.Addr): Address
    requires 0 < a.i <= |xs|
  {
    Address(a.i, a.j, Position(xs, a.i))
  }

  function MetaOf(h: Hashing, xs: seq<Bytes>, a: Shape.Addr): MetaInfo
    requires 0 < a.i <= |xs|
  {
    MetaInfo(AddressOf(xs, a), NodeHash(h, xs, a.i, a.j))
  }

  predicate Within(d: Shape.INode, n: nat) {
    0 < d.node.i <= n && 0 < d.left.i <= n && 0 < d.right.i <= n
  }

  function INodeOf(h: Hashing, xs: seq<Bytes>, d: Shape.INode): INode
    requires Within(d, |xs|)
  {
    INode(MetaOf(h, xs, d.node), AddressOf(xs, d.left), AddressOf(xs, d.right))
  }

  function INodesOf(h: Hashing, xs: seq<Bytes>, s: seq<Shape.INode>): (r: seq<INode>)
    requires forall k :: 0 <= k < |s| ==> Within(s[k], |xs|)
    ensures |r| == |s|
    ensures forall k :: 0 <= k < |s| ==> r[k] == INodeOf(h, xs, s[k])
  {
    seq(|s|, k requires 0 <= k < |s| => INodeOf(h, xs, s[k]))
  }

  /** The entry of element i. */
  function EntryOf(h: Hashing, xs: seq<Bytes>, i: nat): Entry
    requires 0 < i <= |xs|
  {
    InodesWithin(i);
    Entry(ENode(MetaOf(h, xs, Shape.Addr(i, 0)), xs[i - 1]), INodesOf(h, xs, Shape.Inodes(i)))
  }

  /** All entries of xs, in the order they are stored. */
  function LogOf(h: Hashing, xs: seq<Bytes>): (log: seq<Entry>)
    ensures |log| == |xs|
    ensures forall k :: 0 <= k < |xs| ==> log[k] == EntryOf(h, xs, k + 1)
  {
    seq(|xs|, k requires 0 <= k < |xs| => EntryOf(h, xs, k + 1))
  }

  lemma InodesWithin(i: nat)
    requires i > 0
    ensures forall k :: 0 <= k < |Shape.Inodes(i)| ==>
      var d := Shape.Inodes(i)[k];
      d.node.i == i && 0 < d.left.i < i && d.right.i == i
  {
    Shape.RootIsNode(i);
    var s := Shape.Inodes(i);
    Shape.SpineNodes(i, Shape.Height(i));
    forall k | 0 <= k < |s|
      ensures 0 < s[k].left.i < i
    {
      Shape.NodeSplit(i, s[k].node.j);
    }
  }

  lemma {:induction false} PositionPrefix(xs: seq<Bytes>, ys: seq<Bytes>, i: nat)
    requires 0 < i <= |xs| + 1 && i <= |ys| + 1 && xs[..i - 1] == ys[..i - 1]
    ensures Position(xs, i) == Position(ys, i)
    decreases i
  {
    if i > 1 {
      assert xs[i - 2] == xs[..i - 1][i - 2] == ys[i - 2];
      assert xs[..i - 2] == xs[..i - 1][..i - 2] == ys[..i - 2];
      PositionPrefix(xs, ys, i - 1);
    }
  }

  /** An entry depends on nothing after it: appending never changes the entries already there. */
  lemma EntryPrefix(h: Hashing, xs: seq<Bytes>, ys: seq<Bytes>, i: nat)
    requires 0 < i <= |xs| && i <= |ys| && xs[..i] == ys[..i]
    ensures EntryOf(h, xs, i) == EntryOf(h, ys, i)
  {
    var s := Shape.Inodes(i);
    InodesWithin(i);
    forall k | 0 <= k < |s|
      ensures INodeOf(h, xs, s[k]) == INodeOf(h, ys, s[k])
    {
      MetaPrefix(h, xs, ys, i, s[k].node);
      MetaPrefix(h, xs, ys, i, s[k].left);
      MetaPrefix(h, xs, ys, i, s[k].right);
    }
    assert INodesOf(h, xs, s) == INodesOf(h, ys, s);
    MetaPrefix(h, xs, ys, i, Shape.Addr(i, 0));
    assert xs[i - 1] == xs[..i][i - 1] == ys[i - 1];
  }

  lemma MetaPrefix(h: Hashing, xs: seq<Bytes>, ys: seq<Bytes>, i: nat, a: Shape.Addr)
    requires 0 < a.i <= i <= |xs| && i <= |ys| && xs[..i] == ys[..i]
    ensures MetaOf(h, xs, a) == MetaOf(h, ys, a)
  {
    assert xs[..a.i] == xs[..i][..a.i] == ys[..a.i];
    assert xs[..a.i - 1] == xs[..i][..a.i - 1] == ys[..a.i - 1];
    PositionPrefix(xs, ys, a.i);
    NodeHashPrefix(h, xs, ys, a.i, a.j);
  }

  /** Every frame takes at least 57 bytes, so the index of an entry stays below its position. */
  lemma {:induction false} PositionAbove(xs: seq<Bytes>, i: nat)
    requires 0 < i <= |xs| + 1
    ensures Position(xs, i) >= HEADER_LEN + 57 * (i - 1)
  {
    hide Shape.Inodes;
    if i > 1 {
      PositionAbove(xs, i - 1);
    }
  }

  lemma {:induction false} PositionsGrow(xs: seq<Bytes>, i: nat, k: nat)
    requires 0 < i <= k <= |xs| + 1
    ensures Position(xs, i) <= Position(xs, k)
    decreases k
  {
    if i < k {
      PositionsGrow(xs, i, k - 1);
    }
  }
}
