/** The shape of the tree T_n in plain arithmetic: the reference the index formulas refine.
    Node b_{i,j} covers the leaves Base(i, j) + 1 .. i; it exists exactly when j is the height
    of a tree with that many leaves. The inodes of generation i are its right spine. */
module Shape {
  import opened Words

  /** The name of node b_{i,j}. */
  datatype Addr = Addr(i: nat, j: nat)

  /** An inner node with its two children. */
  datatype INode = INode(node: Addr, left: Addr, right: Addr)

  /** The height of a tree of size leaves: the least h with size <= 2^h. */
  function Height(size: nat): nat
    requires size > 0
  {
    BitLen(size - 1)
  }

  /** Leaves to the left of the subtree of b_{i,j}. */
  function Base(i: nat, j: nat): (r: nat)
    requires i > 0
    ensures r < i <= r + Pow2(j)
  {
    i - 1 - Low(i - 1, j)
  }

  predicate IsNode(i: nat, j: nat)
    ensures IsNode(i, j) ==> i > 0
  {
    i > 0 && Height(i - Base(i, j)) == j
  }

  predicate Covers(a: Addr, k: nat)
    requires a.i > 0
  {
    Base(a.i, a.j) < k <= a.i
  }

  /** A perfect subtree: all 2^j leaves are present. */
  predicate IsPerfect(a: Addr) {
    a.i > 0 && Base(a.i, a.j) + Pow2(a.j) == a.i
  }

  lemma PerfectBase(a: Addr)
    requires IsPerfect(a)
    ensures Base(a.i, a.j) + Pow2(a.j) == a.i
  {
  }

  function LeftOf(i: nat, j: nat): Addr
    requires i > 0 && j > 0
  {
    Addr(Base(i, j - 1), j - 1)
  }

  function RightOf(i: nat, j: nat): Addr
    requires i > 0 && j > 0
  {
    Addr(i, BitLen(Low(i - 1, j - 1)))
  }

  lemma HeightBounds(size: nat)
    requires size > 0
    ensures size <= Pow2(Height(size))
    ensures Height(size) > 0 <==> size > 1
    ensures Height(size) > 0 ==> Pow2(Height(size) - 1) < size
  {
    BitLenBounds(size - 1);
  }

  /** A node splits into a perfect left half and the remaining leaves on the right; both are nodes,
      lower than their parent, and their ranges put side by side are the parent's range. */
  lemma NodeSplit(i: nat, j: nat)
    requires IsNode(i, j) && j > 0
    ensures var l, r := LeftOf(i, j), RightOf(i, j);
      && 0 < l.i < i && l.j == j - 1 && r.i == i && r.j <= l.j
      && IsNode(l.i, l.j) && IsNode(r.i, r.j) && IsPerfect(l)
      && Base(l.i, l.j) == Base(i, j) && Base(r.i, r.j) == l.i == Base(i, j) + Pow2(j - 1)
  {
    var m, b := i - 1, j - 1;
    var l, r := LeftOf(i, j), RightOf(i, j);
    TopDigit(m, b);
    assert l == Addr(m - Low(m, b), b);
    LeftIsPerfect(m, b);
    LowToOwnLength(m, b);
    assert Base(i, r.j) == m - Low(m, r.j) == l.i;
  }

  lemma TopDigit(m: nat, b: nat)
    requires BitLen(Low(m, b + 1)) == b + 1
    ensures Low(m, b + 1) == Pow2(b) + Low(m, b)
  {
    BitLenBounds(Low(m, b + 1));
    LowTop(m, b);
  }

  /** Clearing the low b digits of m, when digit b is set, names a perfect subtree of height b. */
  lemma LeftIsPerfect(m: nat, b: nat)
    requires Low(m, b) < m
    ensures var q := m - Low(m, b);
      q > 0 && IsNode(q, b) && IsPerfect(Addr(q, b))
  {
    LowReplaced(m, b, 0);
    LowPred(m - Low(m, b), b);
    PerfectIsNode(Addr(m - Low(m, b), b));
  }

  /** The digits of m below b are its digits below their own length. */
  lemma LowToOwnLength(m: nat, b: nat)
    ensures var h := BitLen(Low(m, b));
      h <= b && Low(m, h) == Low(m, b)
  {
    var x := Low(m, b);
    BitLenBounds(x);
    BitLenAtMost(x, b);
    LowLow(m, b, BitLen(x));
    LowSmall(x, BitLen(x));
  }

  /** The root of T_n covers exactly the leaves 1..n. */
  lemma RootIsNode(n: nat)
    requires n > 0
    ensures IsNode(n, Height(n)) && Base(n, Height(n)) == 0
  {
    BitLenBounds(n - 1);
    LowSmall(n - 1, Height(n));
  }

  /** A node is a leaf exactly when its height is 0. */
  lemma LeafIsNode(i: nat)
    requires i > 0
    ensures IsNode(i, 0) && Base(i, 0) == i - 1
  {
  }

  lemma PerfectIsNode(a: Addr)
    requires IsPerfect(a)
    ensures IsNode(a.i, a.j)
  {
    if a.j > 0 {
      Pow2Mono(a.j - 1, a.j);
    }
    BitLenUnique(Pow2(a.j) - 1, a.j);
  }

  // ----- the inodes of a generation

  /** The inner nodes on the right spine below b_{i,j}, lowest first. */
  function Spine(i: nat, j: nat): (s: seq<INode>)
    requires i > 0
    decreases j
  {
    if j == 0 then [] else
      RightIsLower(i, j);
      Spine(i, RightOf(i, j).j) + [INode(Addr(i, j), LeftOf(i, j), RightOf(i, j))]
  }

  lemma RightIsLower(i: nat, j: nat)
    requires i > 0 && j > 0
    ensures RightOf(i, j).j < j
  {
    LowToOwnLength(i - 1, j - 1);
  }

  /** The inodes of generation i, lowest first. */
  function Inodes(i: nat): seq<INode>
    requires i > 0
  {
    Spine(i, Height(i))
  }

  function Reverse<T>(s: seq<T>): (r: seq<T>)
    ensures |r| == |s|
    ensures forall k :: 0 <= k < |s| ==> r[k] == s[|s| - 1 - k]
  {
    seq(|s|, k requires 0 <= k < |s| => s[|s| - 1 - k])
  }

  lemma ReverseCons<T>(x: T, s: seq<T>)
    ensures Reverse([x] + s) == Reverse(s) + [x]
  {
  }

  /** The height of the node before number k on a spine, 0 for the leaf before the first. */
  function HeightBelow(s: seq<INode>, k: nat): nat
    requires k <= |s|
  {
    if k == 0 then 0 else s[k - 1].node.j
  }

  /** Every inode on the spine is a node of generation i with its own children; heights rise strictly,
      and the right child of an inode is the inode stored before it (a leaf for the first). */
  lemma {:induction false} SpineNodes(i: nat, j: nat)
    requires IsNode(i, j)
    ensures var s := Spine(i, j);
      && |s| <= j
      && (j > 0 ==> |s| > 0 && s[|s| - 1].node == Addr(i, j))
      && (forall k :: 0 <= k < |s| ==>
            && s[k].node.i == i && 0 < s[k].node.j <= j && IsNode(i, s[k].node.j)
            && s[k].left == LeftOf(i, s[k].node.j) && s[k].right == RightOf(i, s[k].node.j))
      && (forall k :: 0 <= k < |s| ==> s[k].right.j == HeightBelow(s, k))
      && (forall k, l :: 0 <= k < l < |s| ==> s[k].node.j < s[l].node.j)
    decreases j
  {
    if j > 0 {
      NodeSplit(i, j);
      SpineNodes(i, RightOf(i, j).j);
    }
  }

  /** Walking down the spine from b_{i,j} passes through every node of generation i below it. */
  lemma {:induction false} SpinePrefix(i: nat, j: nat, h: nat)
    requires IsNode(i, j) && IsNode(i, h) && h <= j
    ensures |Spine(i, h)| <= |Spine(i, j)| && Spine(i, h) == Spine(i, j)[..|Spine(i, h)|]
    decreases j
  {
    if h < j {
      NodeSplit(i, j);
      HeightsMonotone(i, h, j - 1);
      SpinePrefix(i, RightOf(i, j).j, h);
    }
  }

  /** The heights of generation i below j are at most that of the right child of b_{i,j}. */
  lemma HeightsMonotone(i: nat, h: nat, b: nat)
    requires IsNode(i, h) && h <= b
    ensures h <= BitLen(Low(i - 1, b))
  {
    if h > 0 {
      BitLenBounds(Low(i - 1, h));
      LowLow(i - 1, b, h);
      var x := Low(i - 1, b);
      if BitLen(x) < h {
        BitLenBounds(x);
        Pow2Mono(BitLen(x), h - 1);
      }
    }
  }

  /** b_{i,h} is an inner node exactly when it is one of the inodes of generation i. */
  lemma InodesAreTheNodes(i: nat, h: nat)
    requires i > 0 && h > 0
    ensures IsNode(i, h) <==> exists k :: 0 <= k < |Inodes(i)| && Inodes(i)[k].node == Addr(i, h)
  {
    hide Low, Pow2, BitLen, Spine, IsNode, LeftOf, RightOf;
    if IsNode(i, h) {
      var k := NodeIsInode(i, h);
    }
    if k :| 0 <= k < |Inodes(i)| && Inodes(i)[k].node == Addr(i, h) {
      RootIsNode(i);
      SpineNodes(i, Height(i));
    }
  }

  lemma NodeIsInode(i: nat, h: nat) returns (k: nat)
    requires i > 0 && IsNode(i, h) && h > 0
    ensures k < |Inodes(i)| && Inodes(i)[k].node == Addr(i, h)
  {
    hide Low, Pow2, BitLen, Spine, IsNode, LeftOf, RightOf;
    RootIsNode(i);
    NodeHeightAtMost(i, h);
    SpinePrefix(i, Height(i), h);
    SpineNodes(i, h);
    k := |Spine(i, h)| - 1;
  }

  lemma NodeHeightAtMost(i: nat, h: nat)
    requires IsNode(i, h)
    ensures h <= Height(i)
  {
    if h > 0 {
      BitLenBounds(Low(i - 1, h));
      if BitLen(i - 1) < h {
        BitLenBounds(i - 1);
        Pow2Mono(BitLen(i - 1), h - 1);
      }
    }
  }

  // ----- the perfect subtrees of a generation

  /** The roots of the perfect subtrees that make up the last n mod 2^b leaves of T_n, left to right. */
  function RootsBelow(n: nat, b: nat): seq<Addr>
    decreases b
  {
    LowToOwnLength(n, b);
    var h := BitLen(Low(n, b));
    if h == 0 then [] else
      [Addr(n - Low(n, h - 1), h - 1)] + RootsBelow(n, h - 1)
  }

  /** The roots of the perfect subtrees of T_n, left to right. */
  function Roots(n: nat): seq<Addr> {
    RootsBelow(n, BitLen(n))
  }

  /** Perfect subtrees of strictly falling heights placed side by side over the leaves lo + 1 .. hi. */
  ghost predicate Tiles(s: seq<Addr>, lo: nat, hi: nat) {
    if s == [] then lo == hi else
      && s[0].i == lo + Pow2(s[0].j)
      && (|s| > 1 ==> s[1].j < s[0].j)
      && Tiles(s[1..], s[0].i, hi)
  }

  /** The digits of n: the first root below b has one height less than n mod 2^b has digits. */
  lemma FirstRoot(n: nat, b: nat)
    requires Low(n, b) > 0
    ensures var h := BitLen(Low(n, b));
      && 0 < h <= b
      && Low(n, b) == Low(n, h) == Pow2(h - 1) + Low(n, h - 1)
      && n - Low(n, h - 1) == n - Low(n, b) + Pow2(h - 1)
      && Low(n, h - 1) < n
      && RootsBelow(n, b) == [Addr(n - Low(n, h - 1), h - 1)] + RootsBelow(n, h - 1)
  {
    LowToOwnLength(n, b);
    var h := BitLen(Low(n, b));
    BitLenBounds(Low(n, b));
    LowTop(n, h - 1);
  }

  lemma NoRoots(n: nat, b: nat)
    requires Low(n, b) == 0
    ensures RootsBelow(n, b) == [] && (n > 0 ==> Joints(n, b) == [])
  {
  }

  lemma {:induction false} RootsTile(n: nat, b: nat)
    ensures var s := RootsBelow(n, b);
      && Tiles(s, n - Low(n, b), n)
      && |s| <= b && (|s| > 0 ==> s[0].j < b && s[|s| - 1].i == n)
      && (forall k :: 0 <= k < |s| ==> IsPerfect(s[k]))
    decreases b
  {
    hide Low, Pow2, BitLen, RootsBelow, IsNode, IsPerfect;
    if Low(n, b) > 0 {
      FirstRoot(n, b);
      var h := BitLen(Low(n, b));
      LeftIsPerfect(n, h - 1);
      RootsTile(n, h - 1);
      var s := RootsBelow(n, h - 1);
      assert ([Addr(n - Low(n, h - 1), h - 1)] + s)[1..] == s;
    } else {
      NoRoots(n, b);
    }
  }

  lemma {:induction false} TilesSpan(s: seq<Addr>, lo: nat, hi: nat)
    requires Tiles(s, lo, hi)
    ensures lo <= hi
    ensures s != [] ==> Pow2(s[0].j) <= hi - lo < 2 * Pow2(s[0].j)
    decreases |s|
  {
    if s != [] {
      TilesSpan(s[1..], s[0].i, hi);
      if |s| > 1 {
        Pow2Mono(s[1].j, s[0].j);
      }
    }
  }

  /** Further right means lower; only the last root ends at the last leaf. */
  lemma {:induction false} TilesOrdered(s: seq<Addr>, lo: nat, hi: nat)
    requires Tiles(s, lo, hi)
    ensures lo <= hi
    ensures forall k :: 0 <= k < |s| ==> lo < s[k].i <= hi
    ensures forall k, l :: 0 <= k < l < |s| ==> s[k].i < s[l].i && s[l].j < s[k].j
    ensures s != [] ==> s[|s| - 1].i == hi
    decreases |s|
  {
    if s != [] {
      TilesOrdered(s[1..], s[0].i, hi);
      assert s == [s[0]] + s[1..];
    }
  }

  /** There is only one way to cut T_n into perfect subtrees of strictly falling heights. */
  lemma {:induction false} TilingIsUnique(s: seq<Addr>, n: nat, b: nat)
    requires Tiles(s, n - Low(n, b), n)
    ensures s == RootsBelow(n, b)
    decreases |s|
  {
    hide Low;
    TilesSpan(s, n - Low(n, b), n);
    if s != [] {
      FirstRoot(n, b);
      BitLenUnique(Low(n, b), s[0].j + 1);
      TilingIsUnique(s[1..], n, s[0].j);
    }
  }

  /** The roots of T_n are the only sequence of perfect subtrees of strictly falling heights over 1..n. */
  lemma RootsAreTheTiling(n: nat, s: seq<Addr>)
    ensures s == Roots(n) <==> Tiles(s, 0, n)
  {
    BitLenBounds(n);
    LowSmall(n, BitLen(n));
    RootsTile(n, BitLen(n));
    if Tiles(s, 0, n) {
      TilingIsUnique(s, n, BitLen(n));
    }
  }

  /** The left children of the inodes of generation i, read from the top, are the perfect-subtree
      roots of the generation before. */
  lemma {:induction false} SpineLeftsAreRoots(i: nat, b: nat)
    requires i > 0
    ensures LeftsFromTop(Spine(i, BitLen(Low(i - 1, b))), RootsBelow(i - 1, b))
    decreases b
  {
    hide Low, BitLen;
    var m := i - 1;
    var h := BitLen(Low(m, b));
    LowToOwnLength(m, b);
    if h > 0 {
      SpineLeftsAreRoots(i, h - 1);
      PutOnTop(Spine(i, RightOf(i, h).j), INode(Addr(i, h), LeftOf(i, h), RightOf(i, h)), RootsBelow(m, h - 1));
    }
  }

  /** s, read from the top, has the left children r. */
  ghost predicate LeftsFromTop(s: seq<INode>, r: seq<Addr>) {
    |s| == |r| && forall k :: 0 <= k < |s| ==> s[k].left == r[|r| - 1 - k]
  }

  lemma PutOnTop(s: seq<INode>, d: INode, r: seq<Addr>)
    requires LeftsFromTop(s, r)
    ensures LeftsFromTop(s + [d], [d.left] + r)
  {
  }

  lemma LeftsAreRoots(i: nat)
    requires i > 0
    ensures LeftsFromTop(Inodes(i), Roots(i - 1))
  {
    BitLenBounds(i - 1);
    LowSmall(i - 1, BitLen(i - 1));
    SpineLeftsAreRoots(i, BitLen(i - 1));
  }

  /** There is one perfect subtree for every 1 among the digits of n. */
  lemma {:induction false} RootsCount(n: nat, b: nat)
    ensures |RootsBelow(n, b)| == CountOnes(Low(n, b))
    decreases b
  {
    hide Low, Pow2, BitLen, RootsBelow;
    if Low(n, b) > 0 {
      FirstRoot(n, b);
      var h := BitLen(Low(n, b));
      RootsCount(n, h - 1);
      CountOnesHigh(Low(n, h - 1), h - 1);
    } else {
      NoRoots(n, b);
    }
  }

  // ----- the inodes of a generation, built from its perfect subtrees

  /** The inodes of generation n that join its perfect subtrees of height below b, highest first. */
  function Joints(n: nat, b: nat): seq<INode>
    requires n > 0
    decreases b
  {
    LowToOwnLength(n, b);
    var h := BitLen(Low(n, b));
    if h == 0 || Low(n, h - 1) == 0 then [] else
      [INode(Addr(n, h), LeftOf(n, h), RightOf(n, h))] + Joints(n, h - 1)
  }

  /** Subtracting one leaves the digits at and above b alone when something is left below b. */
  lemma PredKeepsHigh(n: nat, b: nat)
    requires n > 0 && Low(n, b) > 0
    ensures Low(n - 1, b) == Low(n, b) - 1
    ensures Base(n, b) == n - Low(n, b)
  {
    LowPred(n, b);
  }

  /** One digit less: the height of the rest of the spine, seen from n and from n - 1. */
  lemma HeightOfPred(n: nat, b: nat)
    requires n > 0 && Low(n, b) > 0
    ensures var h := BitLen(Low(n, b));
      && h > 0
      && BitLen(Low(n - 1, b)) == if Low(n, h - 1) == 0 then h - 1 else h
    ensures var h := BitLen(Low(n, b));
      Low(n, h - 1) > 0 ==> LeftOf(n, h) == Addr(n - Low(n, h - 1), h - 1)
  {
    hide Low, BitLen, RootsBelow;
    FirstRoot(n, b);
    PredKeepsHigh(n, b);
    var h := BitLen(Low(n, b));
    BitLenBounds(Low(n, b));
    if Low(n, h - 1) == 0 {
      if h > 1 {
        Pow2Mono(h - 2, h - 1);
      }
      BitLenUnique(Pow2(h - 1) - 1, h - 1);
    } else {
      BitLenUnique(Low(n, b) - 1, h);
      PredKeepsHigh(n, h - 1);
    }
  }

  /** Joint k of e joins the perfect subtree r[k] with everything to the right of it. */
  ghost predicate JoinUp(n: nat, r: seq<Addr>, e: seq<INode>) {
    && |e| == |r| - 1
    && forall k :: 0 <= k < |e| ==>
      && e[k].node == Addr(n, r[k].j + 1) && e[k].left == r[k]
      && e[k].right == if k + 1 < |e| then e[k + 1].node else r[k + 1]
  }

  lemma JoinOneMore(n: nat, a: Addr, r: seq<Addr>, d: INode, e: seq<INode>)
    requires JoinUp(n, r, e)
    requires d.node == Addr(n, a.j + 1) && d.left == a
    requires d.right == if e != [] then e[0].node else r[0]
    ensures JoinUp(n, [a] + r, [d] + e)
  {
  }

  lemma {:induction false} JointsJoinRoots(n: nat, b: nat)
    requires n > 0 && Low(n, b) > 0
    ensures JoinUp(n, RootsBelow(n, b), Joints(n, b))
    decreases b
  {
    hide Low, Pow2, BitLen, RootsBelow;
    FirstRoot(n, b);
    HeightOfPred(n, b);
    var h := BitLen(Low(n, b));
    if Low(n, h - 1) > 0 {
      JointsJoinRoots(n, h - 1);
      NextJoint(n, h - 1);
      var d := INode(Addr(n, h), LeftOf(n, h), RightOf(n, h));
      JoinOneMore(n, LeftOf(n, h), RootsBelow(n, h - 1), d, Joints(n, h - 1));
    } else {
      NoRoots(n, h - 1);
    }
  }

  /** What the next joint, or the last root, is the right child of. */
  lemma NextJoint(n: nat, b: nat)
    requires n > 0 && Low(n, b) > 0
    ensures var r, e := RootsBelow(n, b), Joints(n, b);
      && r != []
      && (e != [] ==> e[0].node == Addr(n, BitLen(Low(n - 1, b))))
      && (e == [] ==> r[0] == Addr(n, BitLen(Low(n - 1, b))))
  {
    FirstRoot(n, b);
    HeightOfPred(n, b);
  }

  /** The inodes of generation n: below, those of its last perfect subtree; above, the joints. */
  lemma {:induction false} InodesFromRoots(n: nat, b: nat)
    requires n > 0 && Low(n, b) > 0
    ensures var r := RootsBelow(n, b);
      |r| > 0 && Spine(n, BitLen(Low(n - 1, b))) == Spine(n, r[|r| - 1].j) + Reverse(Joints(n, b))
    decreases b
  {
    hide Low, Pow2, BitLen, RootsBelow;
    FirstRoot(n, b);
    HeightOfPred(n, b);
    var h := BitLen(Low(n, b));
    if Low(n, h - 1) == 0 {
      NoRoots(n, h - 1);
    } else {
      InodesFromRoots(n, h - 1);
      var r := RootsBelow(n, h - 1);
      ReverseCons(INode(Addr(n, h), LeftOf(n, h), RightOf(n, h)), Joints(n, h - 1));
      assert RootsBelow(n, b)[|r|] == r[|r| - 1];
    }
  }

  lemma PredOfPow2(b: nat)
    ensures BitLen(Pow2(b) - 1) == b
  {
    BitLenUnique(Pow2(b) - 1, b);
  }

  /** The spine of a perfect subtree: every node halves. */
  lemma {:induction false} PerfectSpine(i: nat, j: nat)
    requires IsPerfect(Addr(i, j)) && j > 0
    ensures LeftOf(i, j) == Addr(i - Pow2(j - 1), j - 1)
    ensures RightOf(i, j) == Addr(i, j - 1) && IsPerfect(Addr(i, j - 1))
  {
    hide Low, BitLen;
    PerfectIsNode(Addr(i, j));
    NodeSplit(i, j);
    LowTop(i - 1, j - 1);
    PredOfPow2(j - 1);
  }
}
