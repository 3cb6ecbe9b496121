/** The nodes of a tree and the paths down to them. The subtree of b_{i,j} holds the perfect nodes
    inside its range, and the nodes of generation i from b_{i,j} down. */
module Subtree {
  import opened Words
  import opened Shape

  /** a is a node of the subtree of b_{i,j}. */
  predicate InSubtree(i: nat, j: nat, a: Addr)
    requires i > 0
  {
    && IsNode(a.i, a.j) && Base(i, j) <= Base(a.i, a.j) && a.i <= i && a.j <= j
    && (a.i == i || IsPerfect(a))
  }

  /** Two multiples of 2^e are at least 2^e apart. */
  lemma {:induction false} MultiplesApart(x: nat, y: nat, e: nat)
    requires Low(x, e) == 0 && Low(y, e) == 0 && x < y
    ensures x + Pow2(e) <= y
  {
    if e > 0 {
      MultiplesApart(x / 2, y / 2, e - 1);
    }
  }

  lemma BaseIsMultiple(i: nat, j: nat, e: nat)
    requires i > 0 && e <= j
    ensures Low(Base(i, j), e) == 0
  {
    LowReplaced(i - 1, j, 0);
    LowLow(Base(i, j), j, e);
    LowSmall(0, e);
  }

  lemma NodeSize(i: nat, j: nat)
    requires IsNode(i, j)
    ensures i - Base(i, j) <= Pow2(j)
    ensures j > 0 ==> Pow2(j - 1) < i - Base(i, j)
  {
    HeightBounds(i - Base(i, j));
  }

  /** No node reaches over the middle of another without being that other, or above it. */
  lemma NoStraddling(i: nat, j: nat, a: Addr)
    requires IsNode(i, j) && j > 0 && InSubtree(i, j, a) && a != Addr(i, j)
    ensures a.i <= LeftOf(i, j).i || LeftOf(i, j).i <= Base(a.i, a.j)
  {
    hide Low, BitLen, IsNode, IsPerfect;
    NodeSplit(i, j);
    var l := LeftOf(i, j).i;
    NodeSize(i, j);
    NodeSize(a.i, a.j);
    var b := Base(a.i, a.j);
    if b < l < a.i {
      BaseIsMultiple(i, j, j);
      if a.j < j {
        BaseIsMultiple(a.i, a.j, a.j);
        LeftIsMultiple(i, j, a.j);
        MultiplesApart(b, l, a.j);
      } else {
        BaseIsMultiple(a.i, a.j, j);
        if Base(i, j) < b {
          MultiplesApart(Base(i, j), b, j);
        }
        if a.i != i {
          PerfectBase(a);
        }
      }
    }
  }

  lemma LeftIsMultiple(i: nat, j: nat, e: nat)
    requires i > 0 && j > 0 && e < j
    ensures Low(LeftOf(i, j).i, e) == 0
  {
    BaseIsMultiple(i, j - 1, e);
  }

  /** A node of the subtree other than its root is in exactly one of the two halves. */
  lemma Descend(i: nat, j: nat, a: Addr)
    requires IsNode(i, j) && InSubtree(i, j, a) && a != Addr(i, j)
    ensures j > 0
    ensures var l, r := LeftOf(i, j), RightOf(i, j);
      && l.i > 0 && r.i > 0
      && (a.i <= l.i <==> InSubtree(l.i, l.j, a)) && (a.i > l.i <==> InSubtree(r.i, r.j, a))
  {
    hide Low, BitLen, IsNode, IsPerfect, Pow2;
    if j == 0 {
      SameLeaf(i, a);
    }
    NodeSplit(i, j);
    NoStraddling(i, j, a);
    var l, r := LeftOf(i, j), RightOf(i, j);
    if a.i <= l.i {
      if a.j > l.j {
        TooHigh(i, j, a);
      }
    } else {
      if a.i == i {
        HeightsBelowRight(i, a.j, j);
      } else {
        FitsBelow(a, l.i, r);
      }
    }
  }

  lemma SameLeaf(i: nat, a: Addr)
    requires i > 0 && InSubtree(i, 0, a)
    ensures a == Addr(i, 0)
  {
  }

  lemma TooHigh(i: nat, j: nat, a: Addr)
    requires IsNode(i, j) && j > 0 && InSubtree(i, j, a) && a.i <= LeftOf(i, j).i
    ensures a.j < j
  {
    hide Low, BitLen, IsNode, IsPerfect;
    NodeSplit(i, j);
    NodeSize(a.i, a.j);
    Pow2Mono(j - 1, j);
  }

  lemma HeightsBelowRight(i: nat, h: nat, j: nat)
    requires IsNode(i, j) && IsNode(i, h) && h < j
    ensures h <= RightOf(i, j).j
  {
    HeightsMonotone(i, h, j - 1);
  }

  /** A perfect node in the right half is no higher than the right half. */
  lemma FitsBelow(a: Addr, l: nat, r: Addr)
    requires IsPerfect(a) && l <= Base(a.i, a.j) && a.i <= r.i && IsNode(r.i, r.j) && Base(r.i, r.j) == l
    ensures a.j <= r.j
  {
    NodeSize(r.i, r.j);
    if a.j > r.j {
      Pow2Mono(r.j, a.j);
    }
  }

  /** The nodes of the halves are nodes of the whole. */
  lemma Ascend(i: nat, j: nat, a: Addr)
    requires IsNode(i, j) && j > 0
    ensures var l, r := LeftOf(i, j), RightOf(i, j);
      && l.i > 0 && r.i > 0
      && (InSubtree(l.i, l.j, a) || InSubtree(r.i, r.j, a) ==> InSubtree(i, j, a) && a != Addr(i, j))
  {
    hide Low, BitLen, IsNode, Pow2;
    NodeSplit(i, j);
    var l := LeftOf(i, j);
    if InSubtree(l.i, l.j, a) && a.i == l.i {
      SpineOfPerfect(l, a.j);
    }
  }

  lemma {:induction false} SpineOfPerfect(l: Addr, h: nat)
    requires IsPerfect(l) && h <= l.j
    ensures IsPerfect(Addr(l.i, h))
    decreases l.j
  {
    if h < l.j {
      PerfectSpine(l.i, l.j);
      SpineOfPerfect(Addr(l.i, l.j - 1), h);
    }
  }

  lemma LeafInSubtree(i: nat, j: nat, k: nat)
    requires IsNode(i, j) && Base(i, j) < k <= i
    ensures InSubtree(i, j, Addr(k, 0))
  {
  }

  lemma SelfInSubtree(i: nat, j: nat)
    requires IsNode(i, j)
    ensures InSubtree(i, j, Addr(i, j))
  {
  }

  // ----- all nodes of a subtree

  /** The nodes of the subtree in the order a walk in both directions meets them: right before left. */
  function Nodes(i: nat, j: nat): seq<Addr>
    requires IsNode(i, j)
    decreases j
  {
    if j == 0 then [Addr(i, 0)] else
      NodeSplit(i, j);
      var l, r := LeftOf(i, j), RightOf(i, j);
      [Addr(i, j)] + Nodes(r.i, r.j) + Nodes(l.i, l.j)
  }

  /** One leaf more means two nodes more. */
  lemma {:induction false} NodeCount(i: nat, j: nat)
    requires IsNode(i, j)
    ensures |Nodes(i, j)| == 2 * (i - Base(i, j)) - 1
    decreases j
  {
    hide Low, Pow2, BitLen, IsNode, IsPerfect, Base;
    if j == 0 {
      LeafIsNode(i);
    } else {
      NodeSplit(i, j);
      NodeCount(LeftOf(i, j).i, j - 1);
      NodeCount(i, RightOf(i, j).j);
    }
  }

  /** Every node of the subtree is met, nothing else is, and nothing twice. */
  lemma {:induction false} NodesAreTheSubtree(i: nat, j: nat)
    requires IsNode(i, j)
    ensures forall a :: a in Nodes(i, j) <==> InSubtree(i, j, a)
    ensures forall k, l :: 0 <= k < l < |Nodes(i, j)| ==> Nodes(i, j)[k] != Nodes(i, j)[l]
    decreases j
  {
    hide Low, Pow2, BitLen, IsNode, IsPerfect, Base, InSubtree;
    SelfInSubtree(i, j);
    if j == 0 {
      forall a | InSubtree(i, 0, a)
        ensures a == Addr(i, 0)
      {
        SameLeaf(i, a);
      }
    } else {
      NodeSplit(i, j);
      var l, r := LeftOf(i, j), RightOf(i, j);
      NodesAreTheSubtree(l.i, l.j);
      NodesAreTheSubtree(r.i, r.j);
      var ns := Nodes(i, j);
      assert ns == [Addr(i, j)] + Nodes(r.i, r.j) + Nodes(l.i, l.j);
      forall a
        ensures a in ns <==> InSubtree(i, j, a)
        ensures !(a in Nodes(r.i, r.j) && a in Nodes(l.i, l.j))
        ensures a in Nodes(r.i, r.j) || a in Nodes(l.i, l.j) ==> a != Addr(i, j)
      {
        Ascend(i, j, a);
        if InSubtree(i, j, a) && a != Addr(i, j) {
          Descend(i, j, a);
        }
      }
      NoRepeats([Addr(i, j)], Nodes(r.i, r.j));
      NoRepeats([Addr(i, j)] + Nodes(r.i, r.j), Nodes(l.i, l.j));
    }
  }

  lemma NoRepeats<T(!new)>(s: seq<T>, t: seq<T>)
    requires forall k, l :: 0 <= k < l < |s| ==> s[k] != s[l]
    requires forall k, l :: 0 <= k < l < |t| ==> t[k] != t[l]
    requires forall x :: !(x in s && x in t)
    ensures forall k, l :: 0 <= k < l < |s + t| ==> (s + t)[k] != (s + t)[l]
  {
    forall k, l | 0 <= k < l < |s + t|
      ensures (s + t)[k] != (s + t)[l]
    {
      if k < |s| <= l {
        assert s[k] in s && t[l - |s|] in t;
      }
    }
  }

  /** The order of the walk: by falling index, and by falling height among the nodes of one generation. */
  ghost predicate Falling(s: seq<Addr>) {
    forall k, l :: 0 <= k < l < |s| ==> s[k].i > s[l].i || (s[k].i == s[l].i && s[k].j > s[l].j)
  }

  lemma {:induction false} NodesFall(i: nat, j: nat)
    requires IsNode(i, j)
    ensures Falling(Nodes(i, j))
    decreases j
  {
    hide Low, Pow2, BitLen, IsNode, IsPerfect, Base, InSubtree, Falling;
    if j == 0 {
      FallingOne(Addr(i, 0));
    } else {
      NodeSplit(i, j);
      var l, r := LeftOf(i, j), RightOf(i, j);
      NodesFall(l.i, l.j);
      NodesFall(r.i, r.j);
      NodesAreTheSubtree(l.i, l.j);
      NodesAreTheSubtree(r.i, r.j);
      var a, ns, ms := Addr(i, j), Nodes(r.i, r.j), Nodes(l.i, l.j);
      forall b: Addr
        ensures b in ns ==> l.i < b.i <= i && b.j < j
        ensures b in ms ==> b.i <= l.i
      {
        Between(i, j, b);
      }
      FallingOne(a);
      FallingMore([a], ns);
      FallingMore([a] + ns, ms);
    }
  }

  /** The nodes of the two halves lie on either side of the middle. */
  lemma Between(i: nat, j: nat, b: Addr)
    requires IsNode(i, j) && j > 0
    ensures var l, r := LeftOf(i, j), RightOf(i, j);
      && l.i > 0 && r.i > 0 && l.i < i
      && (InSubtree(r.i, r.j, b) ==> l.i < b.i <= i && b.j < j)
      && (InSubtree(l.i, l.j, b) ==> b.i <= l.i)
  {
    hide Low, Pow2, BitLen, IsNode, IsPerfect;
    NodeSplit(i, j);
    RightIsLower(i, j);
  }

  lemma FallingOne(a: Addr)
    ensures Falling([a])
  {
  }

  lemma NothingFalls()
    ensures Falling([])
  {
  }

  lemma FallingMore(s: seq<Addr>, t: seq<Addr>)
    requires Falling(s) && Falling(t)
    requires forall a, b :: a in s && b in t ==> a.i > b.i || (a.i == b.i && a.j > b.j)
    ensures Falling(s + t)
  {
    forall k, l | 0 <= k < l < |s + t|
      ensures var u := s + t; u[k].i > u[l].i || (u[k].i == u[l].i && u[k].j > u[l].j)
    {
      if k < |s| <= l {
        assert s[k] in s && t[l - |s|] in t;
      }
    }
  }

  /** All nodes of T_n; T_0 has none. */
  function TreeNodes(n: nat): seq<Addr> {
    if n == 0 then [] else
      RootIsNode(n);
      Nodes(n, Height(n))
  }

  lemma TreeNodesAre(n: nat)
    ensures |TreeNodes(n)| == if n == 0 then 0 else 2 * n - 1
    ensures forall a :: a in TreeNodes(n) <==> IsNode(a.i, a.j) && a.i <= n && (a.i == n || IsPerfect(a))
    ensures forall k, l :: 0 <= k < l < |TreeNodes(n)| ==> TreeNodes(n)[k] != TreeNodes(n)[l]
    ensures Falling(TreeNodes(n))
  {
    hide Low, Pow2, BitLen, Nodes, IsPerfect, IsNode, Falling;
    NothingFalls();
    if n > 0 {
      RootIsNode(n);
      NodesFall(n, Height(n));
      NodeCount(n, Height(n));
      NodesAreTheSubtree(n, Height(n));
      forall a: Addr | IsNode(a.i, a.j) && a.i <= n && (a.i == n || IsPerfect(a))
        ensures InSubtree(n, Height(n), a)
      {
        NoHigher(n, a);
      }
    }
  }

  /** Every perfect node of an earlier generation, and every node of this one, is in the tree. */
  lemma NoHigher(n: nat, a: Addr)
    requires n > 0 && IsNode(a.i, a.j) && a.i <= n && (a.i == n || IsPerfect(a))
    ensures IsNode(n, Height(n)) && InSubtree(n, Height(n), a)
  {
    RootIsNode(n);
    NodeHeightAtMost(a.i, a.j);
    BitLenBounds(a.i - 1);
    BitLenBounds(n - 1);
    if BitLen(a.i - 1) > BitLen(n - 1) {
      Pow2Mono(BitLen(n - 1), BitLen(a.i - 1) - 1);
    }
  }

  // ----- the path to a node

  /** The siblings met on the way from b_{i,j} down to a, highest first. */
  function Siblings(i: nat, j: nat, a: Addr): seq<Addr>
    requires IsNode(i, j) && InSubtree(i, j, a)
    decreases j
  {
    if a == Addr(i, j) then [] else
      Descend(i, j, a);
      NodeSplit(i, j);
      var l, r := LeftOf(i, j), RightOf(i, j);
      if a.i <= l.i then [r] + Siblings(l.i, l.j, a) else [l] + Siblings(r.i, r.j, a)
  }

  /** How many of the nodes cover leaf k. */
  function CoverCount(s: seq<Addr>, k: nat): nat {
    if s == [] then 0 else (if s[0].i > 0 && Covers(s[0], k) then 1 else 0) + CoverCount(s[1..], k)
  }

  /** The leaves of the subtree are divided among a and the siblings on the way to it: every leaf that
      is not below a is below exactly one sibling, and the leaves below a, or outside, below none. */
  lemma {:induction false} SiblingsTile(i: nat, j: nat, a: Addr, k: nat)
    requires IsNode(i, j) && InSubtree(i, j, a)
    ensures CoverCount(Siblings(i, j, a), k) == if Covers(Addr(i, j), k) && !Covers(a, k) then 1 else 0
    decreases j
  {
    hide Low, Pow2, BitLen, IsNode, IsPerfect, Base;
    if a != Addr(i, j) {
      Descend(i, j, a);
      NodeSplit(i, j);
      var l, r := LeftOf(i, j), RightOf(i, j);
      if a.i <= l.i {
        SiblingsTile(l.i, l.j, a, k);
        assert ([r] + Siblings(l.i, l.j, a))[1..] == Siblings(l.i, l.j, a);
      } else {
        SiblingsTile(r.i, r.j, a, k);
        assert ([l] + Siblings(r.i, r.j, a))[1..] == Siblings(r.i, r.j, a);
      }
    }
  }

  /** Siblings are nodes below b_{i,j}, lower one after the other, and none is met twice. */
  lemma {:induction false} SiblingsAreNodes(i: nat, j: nat, a: Addr)
    requires IsNode(i, j) && InSubtree(i, j, a)
    ensures var s := Siblings(i, j, a);
      && |s| <= j - a.j
      && (forall t :: 0 <= t < |s| ==> IsNode(s[t].i, s[t].j) && 0 < s[t].i <= i && s[t].j < j)
      && (forall t :: 0 <= t < |s| ==> Base(i, j) <= Base(s[t].i, s[t].j))
    decreases j
  {
    hide Low, Pow2, BitLen, IsPerfect;
    if a != Addr(i, j) {
      Descend(i, j, a);
      NodeSplit(i, j);
      var l, r := LeftOf(i, j), RightOf(i, j);
      if a.i <= l.i {
        SiblingsAreNodes(l.i, l.j, a);
      } else {
        SiblingsAreNodes(r.i, r.j, a);
      }
    }
  }
}
