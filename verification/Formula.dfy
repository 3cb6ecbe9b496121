/** The index formulas of src/formula.rs on u64 words: the closed forms, and the constructive model
    of a generation. Every intermediate value is a u64, so nothing here overflows, and no shift
    reaches the width of the word. */
module Formula {
  import opened Words
  import opened Shape

  /** i mod 2^j for j up to 64. */
  function IMod2e(i: u64, j: nat): (r: u64)
    requires j <= 64
    ensures r == Low(i, j)
  {
    if j >= 64 then
      Pow2Of64();
      Pow2Mono(64, j);
      LowSmall(i, j);
      i
    else
      ShlOne(j);
      AndMask(i, j);
      var mask: u64 := Shl(1, j) - 1;
      And(i, mask)
  }

  function Pow2e(j: nat): (r: u64)
    requires j < 64
    ensures r == Pow2(j)
  {
    ShlOne(j);
    Shl(1, j)
  }

  function CeilLog2(x: u64): (r: nat)
    requires x > 0
    ensures r == Height(x) <= 64
  {
    Pow2Of64();
    LeadingZerosBitLen(x - 1, 64);
    INDEX_SIZE - LeadingZeros(x - 1, 64)
  }

  function FloorLog2(x: u64): (r: nat)
    requires x > 0
    ensures r < 64 && Pow2(r) <= x < Pow2(r + 1)
  {
    Pow2Of64();
    LeadingZerosBitLen(x, 64);
    BitLenBounds(x);
    63 - LeadingZeros(x, 64)
  }

  /** Whether b_{i,j} is the root of a perfect subtree. */
  predicate IsPbst(i: u64, j: nat)
    requires j <= 64
    ensures IsPbst(i, j) <==> Low(i, j) == 0
    ensures i > 0 ==> (IsPbst(i, j) <==> IsPerfect(Addr(i, j)))
  {
    MultipleIsPerfect(i, j);
    IMod2e(i, j) == 0
  }

  /** The 2^j leaves up to i make a perfect subtree exactly when i is a multiple of 2^j. */
  lemma MultipleIsPerfect(i: nat, j: nat)
    ensures i > 0 ==> (Low(i, j) == 0 <==> IsPerfect(Addr(i, j)))
  {
    if i > 0 {
      LowPred(i, j);
    }
  }

  /** The first and last leaf below b_{i,j}. */
  function Range(i: u64, j: nat): (r: (u64, u64))
    requires i > 0 && j <= 64
    ensures r.0 == Base(i, j) + 1 && r.1 == i
  {
    var start: u64 := i - IMod2e(i - 1, j);
    (start, i)
  }

  predicate Contains(i: u64, j: nat, k: u64)
    requires i > 0 && j <= 64
    ensures Contains(i, j, k) <==> Covers(Addr(i, j), k)
  {
    var (start, end) := Range(i, j);
    start <= k <= end
  }

  function LeafCount(i: u64, j: nat): (r: u64)
    requires i > 0 && j <= 64
    ensures r == i - Base(i, j)
  {
    IMod2e(i - 1, j) + 1
  }

  function RootOf(n: u64): (r: Addr)
    requires n > 0
    ensures IsNode(r.i, r.j) && r.i == n && Base(r.i, r.j) == 0
  {
    RootIsNode(n);
    Addr(n, CeilLog2(n))
  }

  /** Whether a node b_{i,j} can exist, for any index and any height. */
  predicate IsValid(i: u64, j: nat)
    ensures IsValid(i, j) <==> IsNode(i, j)
  {
    if i == 0 then false
    else if j == 0 then true
    else
      var height := CeilLog2(i);
      HeightIsTop(i, j);
      NodeByRemainder(i, j);
      if j > height then false
      else if j == height then true
      else if IsPbst(i, j) then true
      else
        AndMask(i, j);
        ShlOne(j);
        ShlOne(j - 1);
        var mask: u64 := Shl(1, j) - 1;
        var remainder: u64 := And(i, mask);
        remainder > Shl(1, j - 1)
  }

  /** Node b_{i,j} exists exactly when i is a multiple of 2^j or lies past the middle of its block. */
  lemma NodeByRemainder(i: nat, j: nat)
    requires i > 0 && j > 0
    ensures IsNode(i, j) <==> Low(i, j) == 0 || Low(i, j) > Pow2(j - 1)
  {
    var x := Low(i - 1, j);
    LowPred(i, j);
    assert IsNode(i, j) <==> BitLen(x) == j;
    BitLenAtMost(x, j - 1);
    BitLenAtMost(x, j);
    assert x == Pow2(j) - 1 || x == Low(i, j) - 1;
  }

  lemma HeightIsTop(i: nat, j: nat)
    requires i > 0
    ensures j > Height(i) ==> !IsNode(i, j)
    ensures j == Height(i) ==> IsNode(i, j)
  {
    RootIsNode(i);
    if IsNode(i, j) {
      NodeHeightAtMost(i, j);
    }
  }

  lemma HeightInWord(i: u64, j: nat)
    requires IsNode(i, j)
    ensures j <= 64
  {
    NodeHeightAtMost(i, j);
    Pow2Of64();
    BitLenAtMost(i - 1, 64);
  }

  /** The children of an inner node. */
  function SubnodesOf(i: u64, j: nat): (r: (Addr, Addr))
    requires IsValid(i, j) && j > 0
    ensures r == (LeftOf(i, j), RightOf(i, j))
  {
    hide Low, Pow2, BitLen, Or, Scaled, Shifted;
    NodeHeightAtMost(i, j);
    NodeSplit(i, j);
    SubnodesArithmetic(i, j);
    var leftUpper: u64 := if j < INDEX_SIZE then Shl(Shr(i - 1, j), j) else 0;
    var leftLower: u64 := Pow2e(j - 1);
    var left: u64 := Or(leftUpper, leftLower);
    var right := Addr(i, CeilLog2(i - left));
    (Addr(left, j - 1), right)
  }

  /** The children given by the closed form are valid nodes, lower than their parent, and their
      ranges put side by side are the parent's range. */
  lemma SubnodesTileParent(i: u64, j: nat)
    requires IsValid(i, j) && 0 < j <= 64
    ensures var (left, right) := SubnodesOf(i, j);
      && 0 < left.i < i && left.j < j && right.i == i && right.j <= left.j
      && IsValid(left.i, left.j) && IsValid(right.i, right.j)
      && Range(left.i, left.j).0 == Range(i, j).0
      && Range(left.i, left.j).1 + 1 == Range(right.i, right.j).0
      && Range(right.i, right.j).1 == Range(i, j).1
  {
    hide Low, Pow2, BitLen, IsValid, Range, SubnodesOf;
    NodeSplit(i, j);
  }

  lemma SubnodesArithmetic(i: u64, j: nat)
    requires IsNode(i, j) && 0 < j <= 64
    ensures Or(if j < INDEX_SIZE then Shl(Shr(i - 1, j), j) else 0, Pow2(j - 1)) == LeftOf(i, j).i < TWO64
    ensures BitLen(i - LeftOf(i, j).i - 1) == RightOf(i, j).j
  {
    hide Low, Pow2, Scaled, Shifted, Or, BitLen;
    NodeSplit(i, j);
    OrPow2(Shifted(i - 1, j), j - 1);
    if j < 64 {
      ShrShl(i - 1, j);
    } else {
      Pow2Of64();
      LowSmall(i - 1, 64);
      ClearedIsScaled(i - 1, 64);
    }
  }

  /** Leaf to root: the number of siblings on the path to leaf i, 0 if T_n has no leaf i. */
  function BranchCount(ti: u64, i: u64, j: nat, count: nat): nat
    requires IsValid(i, j) && Contains(i, j, ti)
    decreases j
  {
    if j == 0 then count
    else
      NodeHeightAtMost(i, j);
      SubnodesTileParent(i, j);
      var (left, right) := SubnodesOf(i, j);
      if Contains(left.i, left.j, ti) then BranchCount(ti, left.i, left.j, count + 1)
      else BranchCount(ti, right.i, right.j, count + 1)
  }

  function StratumSampleSize(n: u64, i: u64): nat
    requires n > 0
  {
    var root := RootOf(n);
    if Contains(root.i, root.j, i) then BranchCount(i, root.i, root.j, 0) else 0
  }

  // ----- the constructive model

  /** Generation n: its perfect subtrees from left to right, and the inodes joining them from the top. */
  datatype Model = Model(n: nat, pbstRoots: seq<Addr>, ephemeralNodes: seq<INode>) {
    function Root(): Addr
      requires pbstRoots != []
    {
      if ephemeralNodes != [] then ephemeralNodes[0].node else pbstRoots[0]
    }
  }

  /** What the constructive model of generation n has to be. */
  function ModelOf(n: nat): Model
    requires n > 0
  {
    Model(n, Roots(n), Joints(n, BitLen(n)))
  }

  method PbstRoots(n: u64) returns (roots: seq<Addr>)
    ensures roots == Roots(n)
    ensures Tiles(roots, 0, n)
  {
    hide Low, BitLen, Tiles, RootsBelow;
    var remaining: u64 := n;
    roots := [];
    ghost var b := BitLen(n);
    BitLenBounds(n);
    LowSmall(n, b);
    while remaining != 0
      invariant remaining == Low(n, b) <= n
      invariant roots + RootsBelow(n, b) == Roots(n)
    {
      var j := FloorLog2(remaining);
      var size := Pow2e(j);
      NextRoot(n, b, j);
      var before: u64 := n - remaining;
      var i: u64 := before + size;
      roots := roots + [Addr(i, j)];
      remaining := remaining - size;
      b := j;
    }
    NoRoots(n, b);
    RootsAreTheTiling(n, roots);
  }

  lemma NextRoot(n: nat, b: nat, j: nat)
    requires Pow2(j) <= Low(n, b) < Pow2(j + 1)
    ensures RootsBelow(n, b) == [Addr(n - Low(n, b) + Pow2(j), j)] + RootsBelow(n, j)
    ensures Low(n, j) == Low(n, b) - Pow2(j)
  {
    hide Low, Pow2;
    FirstRoot(n, b);
    BitLenUnique(Low(n, b), j + 1);
  }

  method CreateEphemeralNodes(n: u64, pbsts: seq<Addr>) returns (ephemerals: seq<INode>)
    requires n > 0 && pbsts == Roots(n)
    ensures ephemerals == Joints(n, BitLen(n))
  {
    BitLenBounds(n);
    LowSmall(n, BitLen(n));
    ghost var joints := Joints(n, BitLen(n));
    JointsJoinRoots(n, BitLen(n));
    ephemerals := [];
    for i := 0 to |pbsts| - 1
      invariant ephemerals == joints[|joints| - i..]
    {
      var position := |pbsts| - 1 - i;
      var right := if i != 0 then ephemerals[0].node else pbsts[position];
      ephemerals := [INode(Addr(n, pbsts[position - 1].j + 1), pbsts[position - 1], right)] + ephemerals;
    }
  }

  method NewModel(n: u64) returns (model: Model)
    requires n > 0
    ensures model == ModelOf(n)
  {
    var roots := PbstRoots(n);
    BitLenBounds(n);
    LowSmall(n, BitLen(n));
    JointsJoinRoots(n, BitLen(n));
    var ephemerals := CreateEphemeralNodes(n, roots);
    model := Model(n, roots, ephemerals);
  }

  /** The inodes created in this generation, lowest first. */
  method ModelInodes(model: Model) returns (inodes: seq<INode>)
    requires 0 < model.n < TWO64 && model == ModelOf(model.n)
    ensures inodes == Inodes(model.n)
  {
    hide Low, BitLen, Tiles, Joints, Spine, Roots;
    var n := model.n;
    var roots := model.pbstRoots;
    ghost var last := LastRoot(n);
    inodes := [];
    for k := 0 to |model.ephemeralNodes|
      invariant inodes == model.ephemeralNodes[..k]
    {
      inodes := inodes + [model.ephemeralNodes[k]];
    }
    ghost var joints := inodes;

    // the last perfect subtree, if it is not a lone leaf, is new in this generation
    var at := 0;
    while at < |roots| && !(roots[at].i == n && roots[at].j != 0)
      invariant at <= |roots|
      invariant forall t :: 0 <= t < at ==> !(roots[t].i == n && roots[t].j != 0)
    {
      at := at + 1;
    }
    if at < |roots| {
      assert roots[at] == last;
      inodes := PerfectInodes(roots[at], inodes);
    } else {
      NoSpine(n);
      assert last == roots[|roots| - 1];
    }
    ReverseConcat(Spine(n, last.j), joints);
    inodes := Reverse(inodes);
  }

  lemma NoSpine(n: nat)
    requires n > 0
    ensures Spine(n, 0) == []
    ensures forall s: seq<INode> :: s + Reverse(Spine(n, 0)) == s
  {
  }

  /** Appends the inodes of a perfect subtree, highest first: each node halves. */
  method PerfectInodes(node: Addr, joints: seq<INode>) returns (inodes: seq<INode>)
    requires IsPerfect(node) && node.i < TWO64 && node.j < 64
    ensures inodes == joints + Reverse(Spine(node.i, node.j))
  {
    hide Low, BitLen, Spine;
    var i := node.i;
    inodes := joints;
    for t := 0 to node.j
      invariant IsPerfect(Addr(i, node.j - t))
      invariant inodes + Reverse(Spine(i, node.j - t)) == joints + Reverse(Spine(i, node.j))
    {
      var j := node.j - t;
      PerfectSpine(i, j);
      ShlOne(j);
      ShlOne(j - 1);
      var block: u64, half: u64 := Shl(1, j), Shl(1, j - 1);
      var before: u64 := i - block;
      var left: u64 := before + half;
      var d := INode(Addr(i, j), Addr(left, j - 1), Addr(i, j - 1));
      PerfectStep(inodes, i, j, d);
      inodes := inodes + [d];
    }
    NoSpine(i);
  }

  /** The last root of T_n: the only one that ends at leaf n; the inodes of n are its spine and the joints. */
  lemma LastRoot(n: u64) returns (last: Addr)
    requires n > 0
    ensures var roots := Roots(n);
      && roots != [] && last == roots[|roots| - 1] && last.i == n && last.j < 64 && IsPerfect(last)
      && (forall k :: 0 <= k < |roots| - 1 ==> roots[k].i != n)
      && Inodes(n) == Spine(n, last.j) + Reverse(Joints(n, BitLen(n)))
  {
    hide Low, Pow2, Joints;
    BitLenBounds(n);
    LowSmall(n, BitLen(n));
    LowSmall(n - 1, BitLen(n));
    RootsTile(n, BitLen(n));
    RootsAreTheTiling(n, Roots(n));
    TilesOrdered(Roots(n), 0, n);
    InodesFromRoots(n, BitLen(n));
    Pow2Of64();
    BitLenAtMost(n, 64);
    last := Roots(n)[|Roots(n)| - 1];
  }

  lemma PerfectStep(s: seq<INode>, n: nat, j: nat, d: INode)
    requires n > 0 && j > 0 && RightOf(n, j).j == j - 1
    requires d == INode(Addr(n, j), LeftOf(n, j), RightOf(n, j))
    ensures s + [d] + Reverse(Spine(n, j - 1)) == s + Reverse(Spine(n, j))
  {
    assert Spine(n, j) == Spine(n, j - 1) + [d];
    ReverseSnoc(Spine(n, j - 1), d);
  }

  lemma ReverseConcat<T>(s: seq<T>, t: seq<T>)
    ensures Reverse(t + Reverse(s)) == s + Reverse(t)
  {
  }

  lemma ReverseSnoc<T>(s: seq<T>, x: T)
    ensures Reverse(s + [x]) == [x] + Reverse(s)
  {
  }

  // ----- the closed forms against the model

  lemma CountPbsts(n: nat)
    ensures |Roots(n)| == CountOnes(n)
  {
    BitLenBounds(n);
    LowSmall(n, BitLen(n));
    RootsCount(n, BitLen(n));
  }

  /** The root the closed form gives is the one on top of the model. */
  lemma ModelRoot(n: u64)
    requires n > 0
    ensures Roots(n) != [] && ModelOf(n).Root() == RootOf(n)
  {
    hide Low, Pow2, BitLen, Joints;
    BitLenBounds(n);
    LowSmall(n, BitLen(n));
    LowSmall(n - 1, BitLen(n));
    NextJoint(n, BitLen(n));
  }

  /** A node is valid exactly when it is a leaf or an inode of the model of its generation. */
  lemma ValidInModel(i: u64, j: nat)
    ensures IsValid(i, j) <==> i > 0 && (j == 0 || exists k :: 0 <= k < |Inodes(i)| && Inodes(i)[k].node == Addr(i, j))
  {
    hide IsValid, Inodes, IsNode;
    if i > 0 && j > 0 {
      InodesAreTheNodes(i, j);
    } else if i > 0 {
      LeafIsNode(i);
    } else {
      NoGeneration(j);
    }
  }

  lemma NoGeneration(j: nat)
    ensures !IsValid(0, j)
  {
  }

  /** The children of every inode of the model are the ones the closed form gives. */
  lemma ModelChildren(i: u64, k: nat)
    requires i > 0 && k < |Inodes(i)|
    ensures var d := Inodes(i)[k];
      d.node.i == i && 0 < d.node.j <= 64 && IsValid(i, d.node.j) && SubnodesOf(i, d.node.j) == (d.left, d.right)
  {
    hide Low, Pow2, BitLen, Spine, IsNode, LeftOf, RightOf, IsValid, SubnodesOf;
    RootIsNode(i);
    SpineNodes(i, Height(i));
    HeightInWord(i, Inodes(i)[k].node.j);
  }
}
