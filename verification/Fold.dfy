/** The root computed by whoever receives values and the hashes beside their path (src/lib.rs, Node and
    ValuesWithBranches). */
module Folding {
  import opened Words
  import opened Merkle
  import opened Subtree
  import opened Sampling
  import Shape

  datatype Node = Node(i: u64, j: nat, hash: Hash) {
    /** The parent of this node as left and `right` as right child. */
    function Parent(h: Hashing, right: Node): Node {
      Node(right.i, j + 1, h.Combine(hash, j + 1, right.hash))
    }

    /** What Parent asserts of the two. */
    predicate Joins(right: Node) {
      i < right.i && j >= right.j
    }
  }

  function ToNode(h: Hashing, v: Value): Node {
    Node(v.i, 0, h.FromBytes(0, v.value))
  }

  /** The indices follow each other without a gap. */
  ghost predicate Consecutive(values: seq<Value>) {
    forall k: nat {:trigger values[k].i} :: k < |values| ==> values[k].i == values[0].i + k
  }

  function Payloads(values: seq<Value>): seq<Bytes> {
    seq(|values|, k requires 0 <= k < |values| => values[k].value)
  }

  /** The top of a tree over the payloads vs, the first of which has index `first`. */
  function TopOf(h: Hashing, first: nat, vs: seq<Bytes>): Node
    requires vs != [] && first + |vs| <= TWO64
  {
    Node(first + |vs| - 1, Shape.Height(|vs|), MerkleHash(h, vs))
  }

  /** The tops of the trees over 2^t payloads each; the last one may have fewer. */
  ghost function Level(h: Hashing, first: nat, vs: seq<Bytes>, t: nat): (s: seq<Node>)
    requires vs != [] && first + |vs| <= TWO64
    ensures s != []
    ensures |s| == 1 ==> s == [TopOf(h, first, vs)]
    decreases |vs|
  {
    var w := Pow2(t);
    if |vs| <= w then [TopOf(h, first, vs)]
    else [TopOf(h, first, vs[..w])] + Level(h, first + w, vs[w..], t)
  }

  /** Two by two joined; an odd one is carried over. */
  function Paired(h: Hashing, s: seq<Node>): seq<Node> {
    if |s| < 2 then s else [s[0].Parent(h, s[1])] + Paired(h, s[2..])
  }

  lemma {:induction false} PairedAt(h: Hashing, s: seq<Node>)
    ensures var p := Paired(h, s);
      && |p| == (|s| + 1) / 2
      && (forall k: nat :: k < |s| / 2 ==> p[k] == s[2 * k].Parent(h, s[2 * k + 1]))
      && (|s| % 2 == 1 ==> p[|s| / 2] == s[|s| - 1])
    decreases |s|
  {
    if |s| >= 2 {
      PairedAt(h, s[2..]);
      var p := Paired(h, s[2..]);
      forall k: nat | k < |s| / 2
        ensures Paired(h, s)[k] == s[2 * k].Parent(h, s[2 * k + 1])
      {
        if k > 0 {
          assert p[k - 1] == s[2..][2 * (k - 1)].Parent(h, s[2..][2 * (k - 1) + 1]);
        }
      }
    }
  }

  lemma FullHeight(t: nat)
    ensures Shape.Height(Pow2(t)) == t
  {
    BitLenUnique(Pow2(t) - 1, t);
    if t > 0 {
      Pow2Mono(t - 1, t);
    }
  }

  /** Any two neighbours of a level can be joined. */
  lemma {:induction false} LevelJoins(h: Hashing, first: nat, vs: seq<Bytes>, t: nat)
    requires vs != [] && first + |vs| <= TWO64
    ensures var s := Level(h, first, vs, t);
      && first <= s[0].i && s[0].j <= t
      && forall k: nat :: k + 1 < |s| ==> s[k].Joins(s[k + 1])
    decreases |vs|
  {
    hide Pow2, BitLen, MerkleHash;
    var w := Pow2(t);
    if |vs| <= w {
      Shape.HeightBounds(|vs|);
      BitLenAtMost(|vs| - 1, t);
    } else {
      FullHeight(t);
      LevelJoins(h, first + w, vs[w..], t);
      LevelSplit(h, first, vs, t);
    }
  }

  lemma LevelSplit(h: Hashing, first: nat, vs: seq<Bytes>, t: nat)
    requires vs != [] && first + |vs| <= TWO64
    ensures |vs| <= Pow2(t) ==> Level(h, first, vs, t) == [TopOf(h, first, vs)]
    ensures |vs| > Pow2(t) ==>
      Level(h, first, vs, t) == [TopOf(h, first, vs[..Pow2(t)])] + Level(h, first + Pow2(t), vs[Pow2(t)..], t)
  {
  }

  /** The top of a tree that is too large for 2^t payloads, but not for twice as many. */
  lemma JoinTops(h: Hashing, first: nat, vs: seq<Bytes>, t: nat)
    requires vs != [] && first + |vs| <= TWO64 && Pow2(t) < |vs| <= Pow2(t + 1)
    ensures TopOf(h, first, vs)
         == TopOf(h, first, vs[..Pow2(t)]).Parent(h, TopOf(h, first + Pow2(t), vs[Pow2(t)..]))
  {
    hide Pow2, BitLen, MerkleHash;
    BitLenUnique(|vs| - 1, t + 1);
    MerkleSplit(h, vs);
    FullHeight(t);
  }

  lemma PairedCons(h: Hashing, a: Node, b: Node, s: seq<Node>)
    ensures Paired(h, [a, b] + s) == [a.Parent(h, b)] + Paired(h, s)
  {
    assert ([a, b] + s)[2..] == s;
  }

  /** Joining a level two by two gives the next. */
  lemma {:induction false} LevelUp(h: Hashing, first: nat, vs: seq<Bytes>, t: nat)
    requires vs != [] && first + |vs| <= TWO64
    ensures Paired(h, Level(h, first, vs, t)) == Level(h, first, vs, t + 1)
    decreases |vs|
  {
    hide Pow2, BitLen, MerkleHash, TopOf, Level, Paired;
    var w := Pow2(t);
    Doubled(t);
    LevelSplit(h, first, vs, t);
    LevelSplit(h, first, vs, t + 1);
    if |vs| <= w {
      PairedOne(h, TopOf(h, first, vs));
    } else {
      var a, rest := TopOf(h, first, vs[..w]), vs[w..];
      LevelSplit(h, first + w, rest, t);
      if |rest| <= w {
        var b := TopOf(h, first + w, rest);
        JoinTops(h, first, vs, t);
        PairedNone(h);
        PairedCons(h, a, b, []);
        assert Level(h, first, vs, t) == [a, b] + [];
      } else {
        var b := TopOf(h, first + w, rest[..w]);
        assert rest[..w] == vs[..2 * w][w..] && vs[..w] == vs[..2 * w][..w] && rest[w..] == vs[2 * w..];
        JoinTops(h, first, vs[..2 * w], t);
        var s := Level(h, first + 2 * w, vs[2 * w..], t);
        LevelUp(h, first + 2 * w, vs[2 * w..], t);
        PairedCons(h, a, b, s);
        assert Level(h, first, vs, t) == [a, b] + s;
      }
    }
  }

  lemma PairedOne(h: Hashing, a: Node)
    ensures Paired(h, [a]) == [a]
  {
  }

  lemma PairedNone(h: Hashing)
    ensures Paired(h, []) == []
  {
  }

  lemma Doubled(t: nat)
    ensures Pow2(t + 1) == 2 * Pow2(t)
  {
  }

  lemma {:induction false} LeafLevel(h: Hashing, values: seq<Value>)
    requires values != [] && Consecutive(values)
    ensures values[0].i + |values| <= TWO64
    ensures Level(h, values[0].i, Payloads(values), 0)
         == seq(|values|, k requires 0 <= k < |values| => ToNode(h, values[k]))
    decreases |values|
  {
    assert values[|values| - 1].i == values[0].i + |values| - 1;
    var vs := Payloads(values);
    if |values| > 1 {
      var rest := values[1..];
      assert rest[0].i == values[1].i == values[0].i + 1;
      assert Consecutive(rest) by {
        forall k: nat | k < |rest|
          ensures rest[k].i == rest[0].i + k
        {
          assert rest[k] == values[k + 1];
        }
      }
      LeafLevel(h, rest);
      assert Payloads(rest) == vs[1..];
    }
  }

  /** Folds the hashes of consecutive values in place, level by level, into the top of the tree over them. */
  method FoldValues(h: Hashing, values: seq<Value>) returns (top: Node)
    requires values != [] && Consecutive(values)
    ensures values[0].i + |values| <= TWO64
    ensures top == TopOf(h, values[0].i, Payloads(values))
  {
    hide Level, TopOf, Pow2, Paired;
    var hashes := seq(|values|, k requires 0 <= k < |values| => ToNode(h, values[k]));
    LeafLevel(h, values);
    ghost var first, vs, t := values[0].i, Payloads(values), 0;
    while |hashes| > 1
      invariant hashes == Level(h, first, vs, t)
      decreases |hashes|
    {
      ghost var level := hashes;
      PairedAt(h, level);
      LevelJoins(h, first, vs, t);
      LevelUp(h, first, vs, t);
      var len := |hashes|;
      for k := 0 to len / 2
        invariant |hashes| == len
        invariant forall l :: 0 <= l < k ==> hashes[l] == Paired(h, level)[l]
        invariant hashes[k..] == level[k..]
      {
        var left, right := hashes[2 * k], hashes[2 * k + 1];
        assert left == level[2 * k] by { assert hashes[k..][k] == level[k..][k]; }
        assert right == level[2 * k + 1] by { assert hashes[k..][k + 1] == level[k..][k + 1]; }
        assert left.Joins(right);
        ghost var was := hashes;
        hashes := hashes[k := left.Parent(h, right)];
        assert hashes[k + 1..] == was[k..][1..] == level[k + 1..];
      }
      var fraction := 0;
      if len % 2 != 0 {
        var last := hashes[len - 1];
        assert last == level[len - 1] by {
          assert hashes[len / 2..][len - 1 - len / 2] == level[len / 2..][len - 1 - len / 2];
        }
        hashes := hashes[..len - 1];
        hashes := hashes[len / 2 := last];
        fraction := 1;
      }
      hashes := hashes[..|hashes| / 2 + fraction];
      assert hashes == Paired(h, level);
      t := t + 1;
    }
    top := hashes[0];
  }

  /** One step up: the branch joins from the side its index is on. */
  function Joined(h: Hashing, folding: Node, branch: Node): Node {
    if folding.i < branch.i then folding.Parent(h, branch) else branch.Parent(h, folding)
  }

  /** The one with the lower index is the left child; the parent is one higher than that and has the index
      of the right child. */
  lemma JoinedSides(h: Hashing, f: Node, b: Node)
    ensures f.i < b.i ==> Joined(h, f, b) == Node(b.i, f.j + 1, h.digest(f.j + 1, f.hash + b.hash))
    ensures f.i >= b.i ==> Joined(h, f, b) == Node(f.i, b.j + 1, h.digest(b.j + 1, b.hash + f.hash))
  {
  }

  /** All branches, listed from the root down, joined from the last to the first. */
  function FoldUp(h: Hashing, folding: Node, branches: seq<Node>): Node
    decreases |branches|
  {
    if branches == [] then folding else
      FoldUp(h, Joined(h, folding, branches[|branches| - 1]), branches[..|branches| - 1])
  }

  /** Whether every step of FoldUp joins a left and a right child. */
  ghost predicate FoldJoins(h: Hashing, folding: Node, branches: seq<Node>)
    decreases |branches|
  {
    branches != [] ==>
      var branch := branches[|branches| - 1];
      && (if folding.i < branch.i then folding.Joins(branch) else branch.Joins(folding))
      && FoldJoins(h, Joined(h, folding, branch), branches[..|branches| - 1])
  }

  lemma {:induction false} FoldFromTop(h: Hashing, folding: Node, branch: Node, s: seq<Node>)
    ensures FoldUp(h, folding, [branch] + s) == Joined(h, FoldUp(h, folding, s), branch)
    ensures FoldJoins(h, folding, [branch] + s) <==>
      && FoldJoins(h, folding, s)
      && var f := FoldUp(h, folding, s); if f.i < branch.i then f.Joins(branch) else branch.Joins(f)
    decreases |s|
  {
    hide Joined;
    if s == [] {
      assert [branch] + s == [branch];
      assert FoldUp(h, Joined(h, folding, branch), []) == Joined(h, folding, branch);
      assert FoldJoins(h, Joined(h, folding, branch), []);
    } else {
      var last := s[|s| - 1];
      assert ([branch] + s)[..|s|] == [branch] + s[..|s| - 1];
      FoldFromTop(h, Joined(h, folding, last), branch, s[..|s| - 1]);
    }
  }

  /** The root computed from the values and the branches. */
  method Root(h: Hashing, values: seq<Value>, branches: seq<Node>) returns (root: Node)
    requires values != [] && Consecutive(values)
    ensures values[0].i + |values| <= TWO64
    ensures root == FoldUp(h, TopOf(h, values[0].i, Payloads(values)), branches)
  {
    hide TopOf, Consecutive, Payloads, Joined;
    var folding := FoldValues(h, values);
    ghost var f := folding;
    var n := |branches|;
    assert branches[..n] == branches;
    for k := 0 to n
      invariant FoldUp(h, folding, branches[..n - k]) == FoldUp(h, f, branches)
    {
      var branch := branches[n - k - 1];
      assert branches[..n - k][..n - k - 1] == branches[..n - k - 1];
      folding := Joined(h, folding, branch);
    }
    root := folding;
  }

  // ----- the branches of a path

  function NodeAt(h: Hashing, xs: seq<Bytes>, a: Shape.Addr): Node
    requires 0 < a.i <= |xs| < TWO64
  {
    Node(a.i, a.j, NodeHash(h, xs, a.i, a.j))
  }

  function NodesAt(h: Hashing, xs: seq<Bytes>, s: seq<Shape.Addr>): seq<Node>
    requires |xs| < TWO64
    requires forall k :: 0 <= k < |s| ==> 0 < s[k].i <= |xs|
  {
    seq(|s|, k requires 0 <= k < |s| => NodeAt(h, xs, s[k]))
  }

  /** The payloads below node a, as values. */
  function ValuesBelow(xs: seq<Bytes>, a: Shape.Addr): seq<Value>
    requires 0 < a.i <= |xs| < TWO64
  {
    var lo := Shape.Base(a.i, a.j);
    seq(a.i - lo, k requires 0 <= k < a.i - lo => Value(lo + k + 1, xs[lo + k]))
  }

  /** Joining the two children of a node gives the node, and Parent may join them. */
  lemma JoinChildren(h: Hashing, xs: seq<Bytes>, i: nat, j: nat)
    requires Shape.IsNode(i, j) && j > 0 && i <= |xs| < TWO64
    ensures var l, r := Shape.LeftOf(i, j), Shape.RightOf(i, j);
      && 0 < l.i < r.i <= |xs|
      && NodeAt(h, xs, l).Joins(NodeAt(h, xs, r))
      && NodeAt(h, xs, l).Parent(h, NodeAt(h, xs, r)) == NodeAt(h, xs, Shape.Addr(i, j))
  {
    hide Low, Pow2, BitLen, Shape.IsNode, Shape.Base, NodeHash, Shape.IsPerfect;
    Shape.NodeSplit(i, j);
    Shape.RightIsLower(i, j);
    NodeHashSplit(h, xs, i, j);
  }

  /** From any node of a subtree, the siblings of its path fold up to the top of the subtree. */
  lemma {:induction false} FoldSiblings(h: Hashing, xs: seq<Bytes>, i: nat, j: nat, a: Shape.Addr)
    requires Shape.IsNode(i, j) && InSubtree(i, j, a) && i <= |xs| < TWO64
    ensures 0 < a.i <= |xs|
    ensures forall k :: 0 <= k < |Siblings(i, j, a)| ==> 0 < Siblings(i, j, a)[k].i <= |xs|
    ensures FoldUp(h, NodeAt(h, xs, a), NodesAt(h, xs, Siblings(i, j, a))) == NodeAt(h, xs, Shape.Addr(i, j))
    ensures FoldJoins(h, NodeAt(h, xs, a), NodesAt(h, xs, Siblings(i, j, a)))
    decreases j
  {
    hide Low, Pow2, BitLen, Shape.IsNode, Shape.Base, Shape.IsPerfect, NodeHash, FoldUp, FoldJoins, InSubtree;
    if a == Shape.Addr(i, j) {
      FoldNothing(h, NodeAt(h, xs, a));
      assert NodesAt(h, xs, Siblings(i, j, a)) == [];
    } else {
      Descend(i, j, a);
      Shape.NodeSplit(i, j);
      JoinChildren(h, xs, i, j);
      var l, r := Shape.LeftOf(i, j), Shape.RightOf(i, j);
      var near, far := if a.i <= l.i then l else r, if a.i <= l.i then r else l;
      FoldSiblings(h, xs, near.i, near.j, a);
      var s := Siblings(near.i, near.j, a);
      assert Siblings(i, j, a) == [far] + s;
      assert NodesAt(h, xs, [far] + s) == [NodeAt(h, xs, far)] + NodesAt(h, xs, s);
      FoldFromTop(h, NodeAt(h, xs, a), NodeAt(h, xs, far), NodesAt(h, xs, s));
    }
  }

  lemma FoldNothing(h: Hashing, f: Node)
    ensures FoldUp(h, f, []) == f && FoldJoins(h, f, [])
  {
  }

  /** The values below a node fold into that node. */
  lemma ValuesFold(h: Hashing, xs: seq<Bytes>, a: Shape.Addr)
    requires Shape.IsNode(a.i, a.j) && a.i <= |xs| < TWO64
    ensures var values := ValuesBelow(xs, a);
      && values != [] && Consecutive(values) && values[0].i + |values| <= TWO64
      && TopOf(h, values[0].i, Payloads(values)) == NodeAt(h, xs, a)
  {
    hide Low, Pow2, BitLen, MerkleHash;
    var values := ValuesBelow(xs, a);
    assert Payloads(values) == xs[Shape.Base(a.i, a.j)..a.i];
  }

  /** The values below any node of T_n with the siblings of its path, root first, fold into the root of
      T_n, and every join is of a left and a right child. */
  lemma RootOfValues(h: Hashing, xs: seq<Bytes>, a: Shape.Addr)
    requires 0 < |xs| < TWO64 && Shape.IsNode(|xs|, Shape.Height(|xs|)) && InSubtree(|xs|, Shape.Height(|xs|), a)
    ensures 0 < a.i <= |xs|
    ensures var branches := Siblings(|xs|, Shape.Height(|xs|), a);
      forall k :: 0 <= k < |branches| ==> 0 < branches[k].i <= |xs|
    ensures var values := ValuesBelow(xs, a);
      && values != [] && Consecutive(values) && values[0].i + |values| <= TWO64
      && var top := TopOf(h, values[0].i, Payloads(values));
         var branches := NodesAt(h, xs, Siblings(|xs|, Shape.Height(|xs|), a));
         && FoldUp(h, top, branches) == Node(|xs|, Shape.Height(|xs|), MerkleHash(h, xs))
         && FoldJoins(h, top, branches)
  {
    hide FoldUp, FoldJoins, Siblings, TopOf, Consecutive, Payloads, Low, Pow2, BitLen, MerkleHash, Shape.Base;
    FoldSiblings(h, xs, |xs|, Shape.Height(|xs|), a);
    ValuesFold(h, xs, a);
    RootHash(h, xs);
  }

  // ----- what the root says about the values

  /** Everything that is hashed while the branches are joined. */
  function FoldInputs(h: Hashing, folding: Node, branches: seq<Node>): set<(nat, Bytes)>
    decreases |branches|
  {
    if branches == [] then {} else
      var branch := branches[|branches| - 1];
      var (l, r) := if folding.i < branch.i then (folding, branch) else (branch, folding);
      {(l.j + 1, l.hash + r.hash)} + FoldInputs(h, Joined(h, folding, branch), branches[..|branches| - 1])
  }

  ghost predicate SamePlaces(s: seq<Node>, t: seq<Node>) {
    |s| == |t| && forall k :: 0 <= k < |s| ==> s[k].i == t[k].i && s[k].j == t[k].j
  }

  /** Two joins that give one hash are joins of the same nodes, unless they collide. */
  lemma JoinBinds(h: Hashing, f: Node, b: Node, g: Node, c: Node)
    requires SamePlaces([f, b], [g, c]) && Joined(h, f, b).hash == Joined(h, g, c).hash
    requires CollisionFree(h, FoldInputs(h, f, [b]) + FoldInputs(h, g, [c]))
    ensures f == g && b == c
  {
    assert f.i == g.i && f.j == g.j by { assert [f, b][0] == f && [g, c][0] == g; }
    assert b.i == c.i && b.j == c.j by { assert [f, b][1] == b && [g, c][1] == c; }
    var (l, r) := if f.i < b.i then (f, b) else (b, f);
    var (m, s) := if g.i < c.i then (g, c) else (c, g);
    var p, q := (l.j + 1, l.hash + r.hash), (m.j + 1, m.hash + s.hash);
    assert p in FoldInputs(h, f, [b]) && q in FoldInputs(h, g, [c]);
    assert p == q;
    SplitEqual(l.hash, r.hash, m.hash, s.hash);
  }

  lemma FoldStep(h: Hashing, f: Node, s: seq<Node>)
    ensures s == [] ==> FoldUp(h, f, s) == f
    ensures s != [] ==> FoldUp(h, f, s) == FoldUp(h, Joined(h, f, s[|s| - 1]), s[..|s| - 1])
    ensures s != [] ==>
      FoldInputs(h, f, s) == FoldInputs(h, f, [s[|s| - 1]]) + FoldInputs(h, Joined(h, f, s[|s| - 1]), s[..|s| - 1])
  {
    hide Joined;
    if s != [] {
      var b := s[|s| - 1];
      assert [b][..0] == [];
    }
  }

  /** Where two nodes are joined depends on nothing but where they are. */
  lemma JoinedPlace(h: Hashing, f: Node, b: Node, g: Node, c: Node)
    requires f.i == g.i && f.j == g.j && b.i == c.i && b.j == c.j
    ensures Joined(h, f, b).i == Joined(h, g, c).i && Joined(h, f, b).j == Joined(h, g, c).j
  {
  }

  lemma FewerCollide(h: Hashing, f: Node, bs: seq<Node>, g: Node, cs: seq<Node>)
    requires bs != [] && cs != [] && CollisionFree(h, FoldInputs(h, f, bs) + FoldInputs(h, g, cs))
    ensures var b, c := bs[|bs| - 1], cs[|cs| - 1];
      && CollisionFree(h, FoldInputs(h, f, [b]) + FoldInputs(h, g, [c]))
      && CollisionFree(h, FoldInputs(h, Joined(h, f, b), bs[..|bs| - 1])
                          + FoldInputs(h, Joined(h, g, c), cs[..|cs| - 1]))
  {
    hide Joined, FoldInputs;
    FoldStep(h, f, bs);
    FoldStep(h, g, cs);
  }

  lemma {:induction false} FoldBinds(h: Hashing, f: Node, bs: seq<Node>, g: Node, cs: seq<Node>)
    requires f.i == g.i && f.j == g.j && SamePlaces(bs, cs)
    requires FoldUp(h, f, bs).hash == FoldUp(h, g, cs).hash
    requires CollisionFree(h, FoldInputs(h, f, bs) + FoldInputs(h, g, cs))
    ensures f == g && bs == cs
    decreases |bs|
  {
    hide Joined, FoldUp, FoldInputs, CollisionFree;
    FoldStep(h, f, bs);
    FoldStep(h, g, cs);
    if bs != [] {
      var n := |bs| - 1;
      JoinedPlace(h, f, bs[n], g, cs[n]);
      FewerCollide(h, f, bs, g, cs);
      FoldBinds(h, Joined(h, f, bs[n]), bs[..n], Joined(h, g, cs[n]), cs[..n]);
      JoinBinds(h, f, bs[n], g, cs[n]);
      assert bs == bs[..n] + [bs[n]] && cs == cs[..n] + [cs[n]];
    }
  }

  /** Whoever knows the root hash knows the values: two answers for the same places that fold into one
      root hash are the same answer, unless hashing them meets a collision. */
  lemma AnswerBinds(h: Hashing, values: seq<Value>, bs: seq<Node>, claimed: seq<Value>, cs: seq<Node>)
    requires values != [] && Consecutive(values) && values[0].i + |values| <= TWO64
    requires |claimed| == |values| && Consecutive(claimed) && claimed[0].i == values[0].i
    requires SamePlaces(bs, cs)
    requires var f, g := TopOf(h, values[0].i, Payloads(values)), TopOf(h, claimed[0].i, Payloads(claimed));
      && FoldUp(h, f, bs).hash == FoldUp(h, g, cs).hash
      && CollisionFree(h, FoldInputs(h, f, bs) + FoldInputs(h, g, cs))
      && CollisionFree(h, Inputs(h, Payloads(values)) + Inputs(h, Payloads(claimed)))
    ensures values == claimed && bs == cs
  {
    hide FoldUp, FoldInputs, MerkleHash, Inputs, BitLen;
    var vs, ws := Payloads(values), Payloads(claimed);
    FoldBinds(h, TopOf(h, values[0].i, vs), bs, TopOf(h, claimed[0].i, ws), cs);
    MerkleBinds(h, vs, ws);
    forall k | 0 <= k < |values|
      ensures values[k] == claimed[k]
    {
      assert vs[k] == ws[k];
      assert values[k].i == claimed[k].i;
    }
  }
}
