/** Finding a differing leaf of two trees by exchanging samples (the protocol documented at
    StratumSample::compare in src/lib.rs). */
module Search {
  import opened Words
  import opened Errors
  import opened Merkle
  import opened Subtree
  import opened Sampling
  import opened Querying
  import Walks
  import Shape

  ghost predicate DiffersAtLeaf(xs: seq<Bytes>, ys: seq<Bytes>, k: nat) {
    0 < k <= |xs| && k <= |ys| && xs[k - 1] != ys[k - 1]
  }

  /** k is the last leaf at which the two sequences differ. */
  ghost predicate LastDifference(xs: seq<Bytes>, ys: seq<Bytes>, k: nat) {
    DiffersAtLeaf(xs, ys, k) && forall l: nat :: DiffersAtLeaf(xs, ys, l) ==> l <= k
  }

  lemma SomeDifference(xs: seq<Bytes>, ys: seq<Bytes>) returns (k: nat)
    requires |xs| == |ys| && xs != ys
    ensures LastDifference(xs, ys, k)
  {
    k := |xs|;
    while !DiffersAtLeaf(xs, ys, k)
      invariant k <= |xs| && forall l: nat :: DiffersAtLeaf(xs, ys, l) ==> l <= k
      decreases k
    {
      if k == 0 {
        forall l | 0 <= l < |xs|
          ensures xs[l] == ys[l]
        {
          assert !DiffersAtLeaf(xs, ys, l + 1);
        }
        assert false;
      }
      k := k - 1;
    }
  }

  /** What is hashed for a node is hashed for every node above it. */
  lemma {:induction false} InputsBelow(h: Hashing, xs: seq<Bytes>, i: nat, j: nat, a: Shape.Addr)
    requires Shape.IsNode(i, j) && i <= |xs| && InSubtree(i, j, a)
    ensures 0 < a.i <= |xs| && NodeInputs(h, xs, a.i, a.j) <= NodeInputs(h, xs, i, j)
    decreases j
  {
    hide Low, Pow2, BitLen, Shape.IsNode, Shape.Base, NodeInputs, Shape.IsPerfect;
    if a != Shape.Addr(i, j) {
      Descend(i, j, a);
      Shape.NodeSplit(i, j);
      NodeInputsSplit(h, xs, i, j);
      var l, r := Shape.LeftOf(i, j), Shape.RightOf(i, j);
      if a.i <= l.i {
        InputsBelow(h, xs, l.i, l.j, a);
      } else {
        InputsBelow(h, xs, r.i, r.j, a);
      }
    }
  }

  ghost predicate NoCollision(h: Hashing, xs: seq<Bytes>, ys: seq<Bytes>)
    requires xs != [] && ys != []
  {
    CollisionFree(h, Inputs(h, xs) + Inputs(h, ys))
  }

  /** A node can carry different hashes only if a payload below it differs, whatever the hash function. */
  lemma DifferenceBelow(h: Hashing, xs: seq<Bytes>, ys: seq<Bytes>, a: Shape.Addr)
    requires 0 < a.i <= |xs| == |ys| && HashDiffers(h, xs, ys, a)
    ensures exists k: nat :: Shape.Covers(a, k) && DiffersAtLeaf(xs, ys, k)
  {
    hide Low, Pow2, MerkleHash, Shape.Base, DiffersAtLeaf;
    var lo := Shape.Base(a.i, a.j);
    var k := SomeDifference(xs[lo..a.i], ys[lo..a.i]);
    DifferentSlices(xs, ys, lo, a.i, k);
    assert Shape.Covers(a, lo + k);
  }

  /** Without collisions, a node carries different hashes exactly when a payload below it differs. */
  lemma HashesTellApart(h: Hashing, xs: seq<Bytes>, ys: seq<Bytes>, a: Shape.Addr)
    requires 0 < |xs| == |ys| && NoCollision(h, xs, ys)
    requires Shape.IsNode(|xs|, Shape.Height(|xs|)) && InSubtree(|xs|, Shape.Height(|xs|), a)
    ensures 0 < a.i <= |xs|
    ensures HashDiffers(h, xs, ys, a) <==> exists k: nat :: Shape.Covers(a, k) && DiffersAtLeaf(xs, ys, k)
  {
    hide Low, Pow2, Shape.IsNode, MerkleHash, Shape.Base, InSubtree, NoCollision, DiffersAtLeaf;
    var n, b := |xs|, Shape.Height(|xs|);
    Shape.RootIsNode(n);
    InputsBelow(h, xs, n, b, a);
    var lo := Shape.Base(a.i, a.j);
    var s, t := xs[lo..a.i], ys[lo..a.i];
    if MerkleHash(h, s) == MerkleHash(h, t) {
      SliceInputs(h, xs, ys, a);
      MerkleBinds(h, s, t);
      SameSlices(xs, ys, lo, a.i);
    } else {
      DifferenceBelow(h, xs, ys, a);
    }
  }

  lemma SameSlices(xs: seq<Bytes>, ys: seq<Bytes>, lo: nat, hi: nat)
    requires lo <= hi <= |xs| && hi <= |ys| && xs[lo..hi] == ys[lo..hi]
    ensures forall k: nat :: lo < k <= hi ==> !DiffersAtLeaf(xs, ys, k)
  {
    forall k: nat | lo < k <= hi
      ensures !DiffersAtLeaf(xs, ys, k)
    {
      assert xs[k - 1] == xs[lo..hi][k - 1 - lo] == ys[k - 1];
    }
  }

  lemma DifferentSlices(xs: seq<Bytes>, ys: seq<Bytes>, lo: nat, hi: nat, k: nat)
    requires lo <= hi <= |xs| && hi <= |ys| && DiffersAtLeaf(xs[lo..hi], ys[lo..hi], k)
    ensures DiffersAtLeaf(xs, ys, lo + k) && 0 < k <= hi - lo
  {
  }

  lemma SliceInputs(h: Hashing, xs: seq<Bytes>, ys: seq<Bytes>, a: Shape.Addr)
    requires 0 < |xs| == |ys| && NoCollision(h, xs, ys)
    requires Shape.IsNode(|xs|, Shape.Height(|xs|)) && InSubtree(|xs|, Shape.Height(|xs|), a) && 0 < a.i <= |xs|
    ensures CollisionFree(h, NodeInputs(h, xs, a.i, a.j) + NodeInputs(h, ys, a.i, a.j))
  {
    hide Low, Pow2, BitLen, Shape.IsNode, Shape.Base, NodeInputs, InSubtree, Shape.IsPerfect;
    var n, b := |xs|, Shape.Height(|xs|);
    InputsBelow(h, xs, n, b, a);
    InputsBelow(h, ys, n, b, a);
    RootInputs(h, xs);
    RootInputs(h, ys);
  }

  lemma RootInputs(h: Hashing, xs: seq<Bytes>)
    requires xs != []
    ensures NodeInputs(h, xs, |xs|, Shape.Height(|xs|)) == Inputs(h, xs)
  {
    Shape.RootIsNode(|xs|);
    assert xs[0..|xs|] == xs;
  }

  /** For two trees compared by the samples of a leaf, and no collision: Identical means identical. */
  lemma IdenticalMeansEqual(h: Hashing, xs: seq<Bytes>, ys: seq<Bytes>, k: nat, r: Result<Prove>)
    requires 0 < k <= |xs| == |ys| < TWO64 && NoCollision(h, xs, ys)
    requires Compared(h, SampleOf(h, xs, k), SampleOf(h, ys, k), r)
    ensures r == Ok(Identical) <==> xs == ys
  {
    hide Compared, MerkleHash, Inputs, Walks.HashesOf, PathSiblings;
    ComparedSamples(h, xs, ys, k, r);
    if r == Ok(Identical) {
      MerkleBinds(h, xs, ys);
    }
  }

  /** Without collisions, a single sample tells the whole tree: equal leaf and witnesses, equal payloads. */
  lemma SampleBinds(h: Hashing, xs: seq<Bytes>, ys: seq<Bytes>, k: nat)
    requires 0 < k <= |xs| == |ys| < TWO64 && NoCollision(h, xs, ys)
    requires SampleOf(h, xs, k) == SampleOf(h, ys, k)
    ensures xs == ys
  {
    hide MerkleHash, Inputs, SampleOf, RootHashOf;
    SampleRootHash(h, xs, k);
    SampleRootHash(h, ys, k);
    MerkleBinds(h, xs, ys);
  }

  /** The child of b_{i,j} on the side of leaf k. */
  function Near(k: nat, i: u64, j: nat): (a: Shape.Addr)
    requires Shape.IsNode(i, j) && j > 0
    ensures a.i < TWO64 && a.j < j && Shape.IsNode(a.i, a.j)
  {
    Shape.NodeSplit(i, j);
    if k <= Shape.LeftOf(i, j).i then Shape.LeftOf(i, j) else Shape.RightOf(i, j)
  }

  /** The child on the other side. */
  function Far(k: nat, i: nat, j: nat): Shape.Addr
    requires i > 0 && j > 0
  {
    if k <= Shape.LeftOf(i, j).i then Shape.RightOf(i, j) else Shape.LeftOf(i, j)
  }

  /** Two hashes in the order in which they are joined, near and far being seen from leaf k. */
  function InOrder(k: nat, i: nat, j: nat, near: Hash, far: Hash): (Hash, Hash)
    requires i > 0 && j > 0
  {
    if k <= Shape.LeftOf(i, j).i then (near, far) else (far, near)
  }

  /** Everything hashed on the way from the leaf of a sample up to b_{i,j}. */
  function PathInputs(h: Hashing, s: StratumSample, i: u64, j: nat): set<(nat, Bytes)>
    requires Shape.IsNode(i, j)
    decreases j
  {
    if j == 0 then {(0, s.leaf.value)} else
      var near, far := Near(s.leaf.i, i, j), Far(s.leaf.i, i, j);
      match ComputeHash(h, s, near.i, near.j)
      case Err(_) => {}
      case Ok(below) =>
        if far !in s.witnesses then {} else
          var (a, b) := InOrder(s.leaf.i, i, j, below, s.witnesses[far]);
          PathInputs(h, s, near.i, near.j) + {(j, a + b)}
  }

  /** The last hash on the way up. */
  lemma TopOfPath(h: Hashing, s: StratumSample, i: u64, j: nat)
    requires Shape.IsNode(i, j) && j > 0 && Shape.Base(i, j) < s.leaf.i <= i && ComputeHash(h, s, i, j).Ok?
    ensures var near, far := Near(s.leaf.i, i, j), Far(s.leaf.i, i, j);
      && Shape.Base(near.i, near.j) < s.leaf.i <= near.i
      && far in s.witnesses && ComputeHash(h, s, near.i, near.j).Ok?
      && PathInputs(h, s, near.i, near.j) <= PathInputs(h, s, i, j)
      && var (a, b) := InOrder(s.leaf.i, i, j, ComputeHash(h, s, near.i, near.j).value, s.witnesses[far]);
         (j, a + b) in PathInputs(h, s, i, j) && ComputeHash(h, s, i, j).value == h.Combine(a, j, b)
  {
    hide Low, Pow2, BitLen, Shape.IsNode, Shape.Base, Formula.Contains, Formula.IsValid, Formula.SubnodesOf;
    Shape.NodeSplit(i, j);
    Formula.HeightInWord(i, j);
  }

  /** What is hashed for an inner node of the tree. */
  lemma TopOfNode(h: Hashing, xs: seq<Bytes>, i: nat, j: nat)
    requires Shape.IsNode(i, j) && j > 0 && i <= |xs|
    ensures var l, r := Shape.LeftOf(i, j), Shape.RightOf(i, j);
      && 0 < l.i <= |xs| && 0 < r.i <= |xs|
      && (j, NodeHash(h, xs, l.i, l.j) + NodeHash(h, xs, r.i, r.j)) in NodeInputs(h, xs, i, j)
      && NodeHash(h, xs, i, j) == h.Combine(NodeHash(h, xs, l.i, l.j), j, NodeHash(h, xs, r.i, r.j))
  {
    hide Low, Pow2, BitLen, Shape.Base, MerkleHash, Inputs;
    Shape.NodeSplit(i, j);
    NodeHashSplit(h, xs, i, j);
    var l := Shape.LeftOf(i, j);
    var s := xs[Shape.Base(i, j)..i];
    assert s[..Pow2(j - 1)] == xs[Shape.Base(i, j)..l.i];
    assert s[Pow2(j - 1)..] == xs[l.i..i];
    var _ := TopInput(h, s);
  }

  /** A sample, wherever it comes from, whose path leads to the hash of b_{i,j} has the payload of the
      tree at its leaf, and the hashes of the tree beside its path. */
  lemma {:induction false} PathBinds(h: Hashing, xs: seq<Bytes>, s: StratumSample, i: u64, j: nat)
    requires Shape.IsNode(i, j) && i <= |xs| && Shape.Base(i, j) < s.leaf.i <= i
    requires ComputeHash(h, s, i, j) == Ok(NodeHash(h, xs, i, j))
    requires CollisionFree(h, NodeInputs(h, xs, i, j) + PathInputs(h, s, i, j))
    ensures s.leaf.value == xs[s.leaf.i - 1] && InSubtree(i, j, Shape.Addr(s.leaf.i, 0))
    ensures Witnessed(h, xs, s.witnesses, Siblings(i, j, Shape.Addr(s.leaf.i, 0)))
    decreases j
  {
    hide Low, Pow2, BitLen, Shape.IsNode, Shape.Base, NodeHash, NodeInputs, PathInputs, ComputeHash, InSubtree;
    LeafInSubtree(i, j, s.leaf.i);
    if j == 0 {
      LeafBinds(h, xs, s, i);
    } else {
      TopOfPath(h, s, i, j);
      TopOfNode(h, xs, i, j);
      NodeInputsSplit(h, xs, i, j);
      Descend(i, j, Shape.Addr(s.leaf.i, 0));
      Shape.NodeSplit(i, j);
      var l, r := Shape.LeftOf(i, j), Shape.RightOf(i, j);
      var near, far := Near(s.leaf.i, i, j), Far(s.leaf.i, i, j);
      var (a, b) := InOrder(s.leaf.i, i, j, ComputeHash(h, s, near.i, near.j).value, s.witnesses[far]);
      SplitEqual(a, b, NodeHash(h, xs, l.i, l.j), NodeHash(h, xs, r.i, r.j));
      PathBinds(h, xs, s, near.i, near.j);
      WitnessedMore(h, xs, s.witnesses, far, Siblings(near.i, near.j, Shape.Addr(s.leaf.i, 0)));
    }
  }

  lemma LeafBinds(h: Hashing, xs: seq<Bytes>, s: StratumSample, i: u64)
    requires 0 < i <= |xs| && Shape.Base(i, 0) < s.leaf.i <= i && Shape.IsNode(i, 0)
    requires ComputeHash(h, s, i, 0) == Ok(NodeHash(h, xs, i, 0))
    requires CollisionFree(h, NodeInputs(h, xs, i, 0) + PathInputs(h, s, i, 0))
    ensures s.leaf.i == i && s.leaf.value == xs[i - 1]
  {
    Shape.LeafIsNode(i);
    NodeHashLeaf(h, xs, i);
    assert (0, xs[i - 1]) in NodeInputs(h, xs, i, 0) && (0, s.leaf.value) in PathInputs(h, s, i, 0);
  }

  lemma WitnessedMore(h: Hashing, xs: seq<Bytes>, w: map<Shape.Addr, Hash>, a: Shape.Addr, s: seq<Shape.Addr>)
    requires 0 < a.i <= |xs| && a in w && w[a] == NodeHash(h, xs, a.i, a.j) && Witnessed(h, xs, w, s)
    ensures Witnessed(h, xs, w, [a] + s)
  {
  }

  /** Everything hashed for the root hash of a sample. */
  function SampleInputs(h: Hashing, s: StratumSample): set<(nat, Bytes)> {
    if s.revision == 0 then {} else
      Shape.RootIsNode(s.revision);
      PathInputs(h, s, s.revision, Shape.Height(s.revision))
  }

  /** The authentication path: a sample received from anywhere that computes the root hash of xs carries
      the payload of xs at its leaf, unless hashing its path meets a collision. */
  lemma SampleIsAuthentic(h: Hashing, xs: seq<Bytes>, s: StratumSample)
    requires 0 < |xs| < TWO64 && s.revision == |xs| && RootHashOf(h, s) == Ok(MerkleHash(h, xs))
    requires CollisionFree(h, Inputs(h, xs) + SampleInputs(h, s))
    ensures 0 < s.leaf.i <= |xs| && s.leaf.value == xs[s.leaf.i - 1]
    ensures Witnessed(h, xs, s.witnesses, PathSiblings(|xs|, s.leaf.i))
  {
    hide Low, Pow2, BitLen, Shape.IsNode, NodeHash, MerkleHash, NodeInputs, PathInputs, Inputs, ComputeHash, InSubtree;
    Shape.RootIsNode(|xs|);
    RootHashOutcome(h, s);
    RootHash(h, xs);
    RootInputs(h, xs);
    PathBinds(h, xs, s, |xs|, Shape.Height(|xs|));
  }

  lemma {:induction false} SiblingsInSubtree(i: nat, j: nat, a: Shape.Addr)
    requires Shape.IsNode(i, j) && InSubtree(i, j, a)
    ensures forall t :: 0 <= t < |Siblings(i, j, a)| ==> InSubtree(i, j, Siblings(i, j, a)[t])
    decreases j
  {
    hide Low, Pow2, BitLen, Shape.IsNode, Shape.Base, InSubtree;
    if a != Shape.Addr(i, j) {
      Descend(i, j, a);
      Shape.NodeSplit(i, j);
      var l, r := Shape.LeftOf(i, j), Shape.RightOf(i, j);
      var near, far := if a.i <= l.i then l else r, if a.i <= l.i then r else l;
      SiblingsInSubtree(near.i, near.j, a);
      SelfInSubtree(far.i, far.j);
      var s := Siblings(near.i, near.j, a);
      assert Siblings(i, j, a) == [far] + s;
      forall t | 0 <= t < |s| + 1
        ensures InSubtree(i, j, ([far] + s)[t])
      {
        Ascend(i, j, ([far] + s)[t]);
      }
    }
  }

  /** The path to the last leaf below a goes through a. */
  lemma {:induction false} PathThrough(i: nat, j: nat, a: Shape.Addr)
    requires Shape.IsNode(i, j) && InSubtree(i, j, a)
    ensures var leaf := Shape.Addr(a.i, 0);
      && Shape.IsNode(a.i, a.j) && InSubtree(i, j, leaf) && InSubtree(a.i, a.j, leaf)
      && Siblings(i, j, leaf) == Siblings(i, j, a) + Siblings(a.i, a.j, leaf)
    decreases j
  {
    hide Low, Pow2, BitLen, Shape.IsPerfect;
    LeafInSubtree(a.i, a.j, a.i);
    LeafInSubtree(i, j, a.i);
    if a != Shape.Addr(i, j) {
      Descend(i, j, a);
      Shape.NodeSplit(i, j);
      var leaf := Shape.Addr(a.i, 0);
      var l, r := Shape.LeftOf(i, j), Shape.RightOf(i, j);
      var near, far := if a.i <= l.i then l else r, if a.i <= l.i then r else l;
      PathThrough(near.i, near.j, a);
      assert [far] + Siblings(near.i, near.j, leaf) == [far] + Siblings(near.i, near.j, a) + Siblings(a.i, a.j, leaf);
    } else {
      assert Siblings(i, j, Shape.Addr(a.i, 0)) == [] + Siblings(a.i, a.j, Shape.Addr(a.i, 0));
    }
  }

  lemma {:induction false} SomeCovers(s: seq<Shape.Addr>, k: nat) returns (t: nat)
    requires CoverCount(s, k) > 0
    ensures t < |s| && s[t].i > 0 && Shape.Covers(s[t], k)
    decreases |s|
  {
    if s[0].i > 0 && Shape.Covers(s[0], k) {
      t := 0;
    } else {
      var u := SomeCovers(s[1..], k);
      t := u + 1;
    }
  }

  lemma {:induction false} NoneCovers(s: seq<Shape.Addr>, k: nat, a: Shape.Addr)
    requires CoverCount(s, k) == 0 && a in s && a.i > 0
    ensures !Shape.Covers(a, k)
    decreases |s|
  {
    if a != s[0] {
      assert s == [s[0]] + s[1..];
      NoneCovers(s[1..], k, a);
    }
  }

  /** The nodes beside and at the end of the path to leaf k. */
  ghost predicate OnPath(n: nat, k: nat, a: Shape.Addr)
    requires 0 < k <= n
  {
    a in PathSiblings(n, k) || a == Shape.Addr(k, 0)
  }

  lemma OnPathInTree(n: nat, k: nat, a: Shape.Addr)
    requires 0 < k <= n && OnPath(n, k, a)
    ensures Shape.IsNode(n, Shape.Height(n)) && InSubtree(n, Shape.Height(n), a)
    ensures a.j == 0 || a.j < Shape.Height(n)
  {
    hide Low, Pow2, Shape.IsNode, InSubtree, Siblings;
    Shape.RootIsNode(n);
    LeafInSubtree(n, Shape.Height(n), k);
    SiblingsInSubtree(n, Shape.Height(n), Shape.Addr(k, 0));
    SiblingsAreNodes(n, Shape.Height(n), Shape.Addr(k, 0));
  }

  /** The nodes reported are those beside and at the end of the path whose hashes differ. */
  ghost predicate Reports(h: Hashing, xs: seq<Bytes>, ys: seq<Bytes>, k: nat, nodes: seq<Shape.Addr>)
    requires 0 < k <= |xs| == |ys|
  {
    forall n :: n in nodes <==> OnPath(|xs|, k, n) && HashDiffers(h, xs, ys, n)
  }

  lemma ReportedNodes(h: Hashing, xs: seq<Bytes>, ys: seq<Bytes>, k: nat, r: Result<Prove>)
    requires 0 < k <= |xs| == |ys| < TWO64 && NoCollision(h, xs, ys) && xs != ys
    requires Compared(h, SampleOf(h, xs, k), SampleOf(h, ys, k), r)
    ensures r.Ok? && r.value.Divergent? && r.value.nodes != [] && Descending(r.value.nodes)
    ensures Reports(h, xs, ys, k, r.value.nodes)
  {
    hide Compared, MerkleHash, NoCollision, SampleOf, PathSiblings, HashDiffers, Descending;
    ComparedSamples(h, xs, ys, k, r);
    IdenticalMeansEqual(h, xs, ys, k, r);
  }

  /** Every node reported covers a payload that differs; nothing is assumed of the hash function. */
  lemma ReportsAreTrue(h: Hashing, xs: seq<Bytes>, ys: seq<Bytes>, k: nat, r: Result<Prove>, n: Shape.Addr)
    requires 0 < k <= |xs| == |ys| < TWO64 && Compared(h, SampleOf(h, xs, k), SampleOf(h, ys, k), r)
    requires r.Ok? && r.value.Divergent? && n in r.value.nodes
    ensures 0 < n.i <= |xs| && exists l: nat :: Shape.Covers(n, l) && DiffersAtLeaf(xs, ys, l)
  {
    hide Compared, SampleOf, PathSiblings, HashDiffers, Descending, DiffersAtLeaf;
    hide Shape.Covers, InSubtree, Shape.IsNode;
    ComparedSamples(h, xs, ys, k, r);
    assert OnPath(|xs|, k, n);
    OnPathInTree(|xs|, k, n);
    InputsBelow(h, xs, |xs|, Shape.Height(|xs|), n);
    DifferenceBelow(h, xs, ys, n);
  }

  lemma ReportsAt(h: Hashing, xs: seq<Bytes>, ys: seq<Bytes>, k: nat, nodes: seq<Shape.Addr>, n: Shape.Addr)
    requires 0 < k <= |xs| == |ys| && Reports(h, xs, ys, k, nodes)
    ensures n in nodes <==> OnPath(|xs|, k, n) && HashDiffers(h, xs, ys, n)
  {
    hide OnPath, HashDiffers;
  }

  /** Nodes are reported, and the first of them covers the given leaf. */
  ghost predicate FirstCovers(n: nat, k: nat, r: Result<Prove>, last: nat)
    requires 0 < k <= n
  {
    && r.Ok? && r.value.Divergent? && r.value.nodes != []
    && var a := r.value.nodes[0]; OnPath(n, k, a) && 0 < a.i <= n && Shape.Covers(a, last)
  }

  /** The first node reported covers the last differing leaf. */
  lemma FirstReported(h: Hashing, xs: seq<Bytes>, ys: seq<Bytes>, k: nat, r: Result<Prove>, last: nat)
    requires 0 < k <= |xs| == |ys| < TWO64 && NoCollision(h, xs, ys) && LastDifference(xs, ys, last)
    requires Compared(h, SampleOf(h, xs, k), SampleOf(h, ys, k), r)
    ensures FirstCovers(|xs|, k, r, last)
  {
    hide Compared, NoCollision, SampleOf, OnPath, HashDiffers, Reports, Descending, LastDifference;
    hide Before, Shape.Covers;
    DifferentThere(xs, ys, last);
    ReportedNodes(h, xs, ys, k, r);
    var nodes := r.value.nodes;
    ReportsAt(h, xs, ys, k, nodes, nodes[0]);
    var m := Covering(|xs|, k, last);
    CoveringIsReported(h, xs, ys, k, m, last);
    ReportsAt(h, xs, ys, k, nodes, m);
    FirstIsLargest(nodes, m);
    LargestCoversLast(h, xs, ys, k, nodes[0], m, last);
  }

  lemma DifferentThere(xs: seq<Bytes>, ys: seq<Bytes>, k: nat)
    requires LastDifference(xs, ys, k)
    ensures xs != ys && 0 < k <= |xs|
  {
  }

  lemma CoveringIsReported(h: Hashing, xs: seq<Bytes>, ys: seq<Bytes>, k: nat, m: Shape.Addr, last: nat)
    requires 0 < k <= |xs| == |ys| && NoCollision(h, xs, ys) && LastDifference(xs, ys, last)
    requires OnPath(|xs|, k, m) && m.i > 0 && Shape.Covers(m, last)
    ensures HashDiffers(h, xs, ys, m)
  {
    hide NoCollision, PathSiblings, NodeHash, InSubtree, Shape.IsNode, Low, Pow2, Shape.Base;
    OnPathInTree(|xs|, k, m);
    HashesTellApart(h, xs, ys, m);
  }

  lemma LargestCoversLast(h: Hashing, xs: seq<Bytes>, ys: seq<Bytes>, k: nat, a: Shape.Addr, m: Shape.Addr, last: nat)
    requires 0 < k <= |xs| == |ys| && NoCollision(h, xs, ys) && LastDifference(xs, ys, last)
    requires OnPath(|xs|, k, a) && HashDiffers(h, xs, ys, a) && Before(a, m) && m.i > 0 && Shape.Covers(m, last)
    ensures 0 < a.i <= |xs| && Shape.Covers(a, last)
  {
    hide NoCollision, PathSiblings, NodeHash, InSubtree, Shape.IsNode, Low, Pow2, Shape.Base;
    OnPathInTree(|xs|, k, a);
    HashesTellApart(h, xs, ys, a);
  }

  lemma Covering(n: nat, k: nat, l: nat) returns (m: Shape.Addr)
    requires 0 < k <= n && 0 < l <= n
    ensures OnPath(n, k, m) && m.i > 0 && Shape.Covers(m, l)
  {
    hide Low, Pow2, Siblings, Shape.IsNode, PathSiblings;
    if k == l {
      Shape.LeafIsNode(k);
      m := Shape.Addr(k, 0);
    } else {
      SampleTiles(n, k, l);
      var t := SomeCovers(PathSiblings(n, k), l);
      m := PathSiblings(n, k)[t];
    }
  }

  /** Sampling the last leaf of a reported node leads to a lower one, or to the leaf itself. */
  lemma ReportsFall(n: nat, a: Shape.Addr, b: Shape.Addr, last: nat)
    requires n > 0 && Shape.IsNode(n, Shape.Height(n)) && InSubtree(n, Shape.Height(n), a) && 0 < a.i <= n && a.j > 0
    requires Shape.Covers(a, last) && OnPath(n, a.i, b) && b.i > 0 && Shape.Covers(b, last)
    ensures b.j < a.j
  {
    hide Low, Pow2, InSubtree, Siblings, Shape.IsNode, Shape.Base;
    PathThrough(n, Shape.Height(n), a);
    var leaf := Shape.Addr(a.i, 0);
    if b != leaf {
      SiblingsTile(n, Shape.Height(n), a, last);
      SiblingsAreNodes(a.i, a.j, leaf);
      if b in Siblings(n, Shape.Height(n), a) {
        NoneCovers(Siblings(n, Shape.Height(n), a), last, b);
      }
    }
  }

  /** The client samples a leaf, the server compares, and the first node it reports says where to sample
      next. From any leaf to start with, this ends at the last differing leaf, after no more
      interactions than the tree is high, and one at least. */
  method FindDifference(client: Query, server: Query, start: u64, ghost last: nat)
    returns (index: nat, interactions: nat)
    requires client.Valid() && server.Valid() && client.cursor != server.cursor && client.hashing == server.hashing
    requires |client.payloads| == |server.payloads| && 0 < start <= |server.payloads|
    requires NoCollision(server.hashing, server.payloads, client.payloads)
    requires LastDifference(server.payloads, client.payloads, last)
    modifies client.cursor`position, server.cursor`position, client.cursor`readCount, server.cursor`readCount
    ensures index == last
    ensures 1 <= interactions
    ensures interactions <= 1 || interactions <= Shape.Height(|server.payloads|)
  {
    hide LastDifference, NoCollision, InSubtree, Low, Pow2, Shape.IsNode, Shape.Base, OnPath;
    ghost var n := |server.payloads|;
    ghost var top := Shape.Height(n);
    ghost var reported := Shape.Addr(n, top);
    Shape.RootIsNode(n);
    var i := start;
    interactions := 0;
    while true
      invariant 0 < i <= n && client.Valid() && server.Valid()
      invariant Shape.IsNode(n, top)
      invariant interactions > 0 ==>
        && 0 < reported.i && i == reported.i && InSubtree(n, top, reported) && reported.j > 0
        && Shape.Covers(reported, last) && interactions + reported.j <= top
      decreases if interactions == 0 then top + 1 else reported.j
    {
      var first := Interact(client, server, i, last);
      interactions := interactions + 1;
      OnPathInTree(n, i, first);
      if interactions > 1 {
        ReportsFall(n, reported, first, last);
      }
      if first.j == 0 {
        Shape.LeafIsNode(first.i);
        return first.i, interactions;
      }
      i := first.i;
      reported := first;
    }
  }

  /** One interaction: the client's sample of leaf i, compared by the server; the first node reported. */
  method Interact(client: Query, server: Query, i: u64, ghost last: nat) returns (first: Shape.Addr)
    requires client.Valid() && server.Valid() && client.cursor != server.cursor && client.hashing == server.hashing
    requires |client.payloads| == |server.payloads| && 0 < i <= |server.payloads|
    requires NoCollision(server.hashing, server.payloads, client.payloads)
    requires LastDifference(server.payloads, client.payloads, last)
    modifies client.cursor`position, server.cursor`position, client.cursor`readCount, server.cursor`readCount
    ensures client.Valid() && server.Valid()
    ensures OnPath(|server.payloads|, i, first) && 0 < first.i <= |server.payloads| && Shape.Covers(first, last)
  {
    hide LastDifference, NoCollision, Compared, SampleOf, OnPath, Shape.Covers;
    var h := server.hashing;
    FitsInWordsOf(h, server.payloads, server.cursor.buffer.bytes);
    var sample := client.GetSample(i);
    var serverSample := server.GetSample(i);
    SampleRevision(h, server.payloads, i);
    var proved := Compare(h, serverSample.value.value, sample.value.value);
    FirstReported(h, server.payloads, client.payloads, i, proved, last);
    first := proved.value.nodes[0];
  }

  lemma SampleRevision(h: Hashing, xs: seq<Bytes>, k: nat)
    requires 0 < k <= |xs| < TWO64
    ensures SampleOf(h, xs, k).revision > 0
  {
  }
}
