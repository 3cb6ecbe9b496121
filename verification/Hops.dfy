/** Hops between entries. Entry e_i points to the entries of the left children of its inodes; reading
    another entry takes one hop after another from the newest one. */
module Hops {
  import opened Words
  import opened Shape

  /** The entries e_i points to, in the order of its inodes. */
  function Lefts(i: nat): seq<nat>
    requires i > 0
  {
    seq(|Inodes(i)|, k requires 0 <= k < |Inodes(i)| => Inodes(i)[k].left.i)
  }

  lemma LeftsBelow(i: nat)
    requires i > 0
    ensures |Lefts(i)| == |Inodes(i)|
    ensures forall k :: 0 <= k < |Inodes(i)| ==>
      && 0 < Inodes(i)[k].left.i < i && Lefts(i)[k] == Inodes(i)[k].left.i
      && Inodes(i)[k].node.j > 0 && Inodes(i)[k].left == LeftOf(i, Inodes(i)[k].node.j)
      && IsPerfect(Inodes(i)[k].left)
    ensures forall k :: 0 <= k < |Lefts(i)| ==> 0 < Lefts(i)[k] < i
  {
    hide Low, Pow2, BitLen, IsPerfect;
    RootIsNode(i);
    SpineNodes(i, Height(i));
    forall k | 0 <= k < |Inodes(i)|
      ensures 0 < Inodes(i)[k].left.i < i && IsPerfect(Inodes(i)[k].left)
    {
      NodeSplit(i, Inodes(i)[k].node.j);
    }
  }

  // ----- the entries within some hops

  /** The entries that can be reached from e_i in at most level hops. */
  function Reach(i: nat, level: nat): set<nat>
    decreases level, 0
  {
    {i} + if i == 0 || level == 0 then {} else ReachAll(Lefts(i), level - 1)
  }

  function ReachAll(q: seq<nat>, level: nat): set<nat>
    decreases level, |q|
  {
    if q == [] then {} else ReachAll(q[..|q| - 1], level) + Reach(q[|q| - 1], level)
  }

  lemma {:induction false} InReachAll(q: seq<nat>, level: nat, x: nat)
    ensures x in ReachAll(q, level) <==> exists k :: 0 <= k < |q| && x in Reach(q[k], level)
    decreases |q|
  {
    hide Reach;
    if q != [] {
      var p := q[..|q| - 1];
      InReachAll(p, level, x);
      if k :| 0 <= k < |q| && x in Reach(q[k], level) {
        assert k < |p| ==> p[k] == q[k];
      }
      if k :| 0 <= k < |p| && x in Reach(p[k], level) {
        assert x in Reach(q[k], level);
      }
    }
  }

  lemma ReachAllHas(q: seq<nat>, k: nat, level: nat)
    requires k < |q|
    ensures Reach(q[k], level) <= ReachAll(q, level)
  {
    hide Reach;
    forall x | x in Reach(q[k], level)
      ensures x in ReachAll(q, level)
    {
      InReachAll(q, level, x);
    }
  }

  lemma {:induction false} ReachGrows(i: nat, level: nat)
    ensures Reach(i, level) <= Reach(i, level + 1)
    decreases level
  {
    if i > 0 && level > 0 {
      forall x | x in ReachAll(Lefts(i), level - 1)
        ensures x in ReachAll(Lefts(i), level)
      {
        InReachAll(Lefts(i), level - 1, x);
        InReachAll(Lefts(i), level, x);
        var k :| 0 <= k < |Lefts(i)| && x in Reach(Lefts(i)[k], level - 1);
        ReachGrows(Lefts(i)[k], level - 1);
        assert x in Reach(Lefts(i)[k], level);
      }
    }
  }

  lemma {:induction false} ReachBelow(i: nat, level: nat, x: nat)
    requires x in Reach(i, level) && i > 0
    ensures 0 < x <= i && (x == i || level > 0)
    decreases level
  {
    hide Lefts;
    if x != i {
      InReachAll(Lefts(i), level - 1, x);
      var k :| 0 <= k < |Lefts(i)| && x in Reach(Lefts(i)[k], level - 1);
      LeftsBelow(i);
      ReachBelow(Lefts(i)[k], level - 1, x);
    }
  }

  /** All perfect subtrees of generation n but the last were there before. */
  lemma {:induction false} RootsCarryOver(n: nat, b: nat)
    requires n > 0 && Low(n, b) > 0
    ensures var r, prior := RootsBelow(n, b), RootsBelow(n - 1, b);
      |r| > 0 && |r| - 1 <= |prior| && r[..|r| - 1] == prior[..|r| - 1]
    decreases b
  {
    hide Low, Pow2, BitLen, RootsBelow;
    FirstRoot(n, b);
    HeightOfPred(n, b);
    var h := BitLen(Low(n, b));
    if Low(n, h - 1) == 0 {
      NoRoots(n, h - 1);
    } else {
      RootsCarryOver(n, h - 1);
      PredKeepsHigh(n, b);
      PredKeepsHigh(n, h - 1);
      FirstRoot(n - 1, b);
      var r, s := RootsBelow(n, h - 1), RootsBelow(n - 1, h - 1);
      var a := Addr(n - Low(n, h - 1), h - 1);
      assert ([a] + r)[..|r|] == [a] + r[..|r| - 1];
      assert ([a] + s)[..|r|] == [a] + s[..|r| - 1];
    }
  }

  lemma CarryOver(n: nat)
    requires n > 0
    ensures var r := Roots(n);
      |r| > 0 && |r| - 1 <= |Roots(n - 1)| && r[..|r| - 1] == Roots(n - 1)[..|r| - 1]
  {
    hide Low, Pow2, RootsBelow;
    BitLenBounds(n);
    BitLenBounds(n - 1);
    LowSmall(n, BitLen(n));
    RootsCarryOver(n, BitLen(n));
    SameRoots(n - 1, BitLen(n));
  }

  /** Digits that are not there do not matter. */
  lemma SameRoots(n: nat, b: nat)
    requires n < Pow2(b)
    ensures RootsBelow(n, b) == Roots(n)
  {
    BitLenBounds(n);
    LowSmall(n, b);
    LowSmall(n, BitLen(n));
  }

  /** e_n points to e_(n-1), and everything else it points to, e_(n-1) points to as well. */
  lemma LeftsCarryOver(n: nat, k: nat)
    requires n > 1 && k < |Lefts(n)|
    ensures Lefts(n)[k] == n - 1 || Lefts(n)[k] in Lefts(n - 1)
  {
    hide Low, Pow2, RootsBelow, Roots, Inodes, IsPerfect, Tiles;
    LeftsBelow(n);
    LeftsBelow(n - 1);
    LeftsAreRoots(n);
    LeftsAreRoots(n - 1);
    CarryOver(n - 1);
    var r, s := Roots(n - 1), Roots(n - 2);
    var t := |r| - 1 - k;
    assert Inodes(n)[k].left == r[t];
    RootsAreTheTiling(n - 1, r);
    TilesOrdered(r, 0, n - 1);
    if t < |r| - 1 {
      assert r[t] == r[..|r| - 1][t] == s[..|r| - 1][t] == s[t];
      assert Inodes(n - 1)[|s| - 1 - t].left == s[t];
      assert Lefts(n - 1)[|s| - 1 - t] == Lefts(n)[k];
    }
  }

  /** Apart from e_n itself, what e_n reaches within some hops e_(n-1) reaches within as many. */
  lemma ReachCarriesOver(n: nat, level: nat)
    requires n > 1
    ensures Reach(n, level) <= {n} + Reach(n - 1, level)
  {
    hide Lefts;
    forall x | x in Reach(n, level) && x != n
      ensures x in Reach(n - 1, level)
    {
      InReachAll(Lefts(n), level - 1, x);
      var k :| 0 <= k < |Lefts(n)| && x in Reach(Lefts(n)[k], level - 1);
      LeftsCarryOver(n, k);
      if Lefts(n)[k] == n - 1 {
        ReachGrows(n - 1, level - 1);
      } else {
        var l :| 0 <= l < |Lefts(n - 1)| && Lefts(n - 1)[l] == Lefts(n)[k];
        InReachAll(Lefts(n - 1), level - 1, x);
      }
    }
  }

  // ----- the path to an entry

  /** The first inode from position t on whose left child covers leaf k. */
  function FirstCovering(s: seq<INode>, k: nat, t: nat): (r: nat)
    requires t <= |s| && forall l :: 0 <= l < |s| ==> s[l].left.i > 0
    ensures t <= r <= |s| && (r < |s| ==> Covers(s[r].left, k))
    ensures forall l :: t <= l < r ==> !Covers(s[l].left, k)
    decreases |s| - t
  {
    if t == |s| || Covers(s[t].left, k) then t else FirstCovering(s, k, t + 1)
  }

  /** The child to follow from e_p towards entry k. */
  function NextHop(p: nat, k: nat): (a: Addr)
    requires 0 < k < p
    ensures 0 < a.i < p && Covers(a, k)
  {
    LeftsBelow(p);
    SomeLeftCovers(p, k);
    Inodes(p)[FirstCovering(Inodes(p), k, 0)].left
  }

  /** The left children of e_p tile the leaves before p, so exactly one of them covers k. */
  lemma SomeLeftCovers(p: nat, k: nat)
    requires 0 < k < p
    ensures forall l :: 0 <= l < |Inodes(p)| ==> Inodes(p)[l].left.i > 0
    ensures FirstCovering(Inodes(p), k, 0) < |Inodes(p)|
  {
    hide Low, Pow2, RootsBelow, Roots, Inodes, IsPerfect, Tiles, Base;
    LeftsBelow(p);
    LeftsAreRoots(p);
    var r := Roots(p - 1);
    RootsAreTheTiling(p - 1, r);
    var t := CoveringRoot(r, 0, p - 1, k);
    PerfectBase(Inodes(p)[|r| - 1 - t].left);
    assert Covers(Inodes(p)[|r| - 1 - t].left, k);
  }

  lemma {:induction false} CoveringRoot(s: seq<Addr>, lo: nat, hi: nat, k: nat) returns (t: nat)
    requires Tiles(s, lo, hi) && lo < k <= hi
    ensures t < |s| && k <= s[t].i < k + Pow2(s[t].j)
    decreases |s|
  {
    if k <= s[0].i {
      t := 0;
    } else {
      var u := CoveringRoot(s[1..], s[0].i, hi, k);
      t := u + 1;
    }
  }

  /** No leaf is covered twice. */
  lemma {:induction false} TilesDisjoint(s: seq<Addr>, lo: nat, hi: nat, t: nat, u: nat, k: nat)
    requires Tiles(s, lo, hi) && t < u < |s| && k <= s[t].i
    ensures k + Pow2(s[u].j) <= s[u].i
    decreases |s|
  {
    if t == 0 {
      StartsAfter(s[1..], s[0].i, hi, u - 1);
    } else {
      TilesDisjoint(s[1..], s[0].i, hi, t - 1, u - 1, k);
    }
  }

  lemma {:induction false} StartsAfter(s: seq<Addr>, lo: nat, hi: nat, u: nat)
    requires Tiles(s, lo, hi) && u < |s|
    ensures lo + Pow2(s[u].j) <= s[u].i
    decreases |s|
  {
    if u > 0 {
      StartsAfter(s[1..], s[0].i, hi, u - 1);
    }
  }

  /** Whichever left child of e_p covers k is the one to follow. */
  lemma NextHopIs(p: nat, k: nat, l: nat)
    requires 0 < k < p && l < |Inodes(p)| && Inodes(p)[l].left.i > 0 && Covers(Inodes(p)[l].left, k)
    ensures NextHop(p, k) == Inodes(p)[l].left
  {
    hide Low, Pow2, RootsBelow, Roots, Inodes, IsPerfect, Tiles, Base;
    LeftsBelow(p);
    SomeLeftCovers(p, k);
    LeftsAreRoots(p);
    var f := FirstCovering(Inodes(p), k, 0);
    if f < l {
      var r := Roots(p - 1);
      RootsAreTheTiling(p - 1, r);
      PerfectBase(Inodes(p)[f].left);
      TilesDisjoint(r, 0, p - 1, |r| - 1 - l, |r| - 1 - f, k);
      assert false;
    }
  }

  /** The number of hops from e_p to entry k. */
  function HopsTo(p: nat, k: nat): nat
    requires 0 < k <= p
    decreases p
  {
    if p == k then 0 else 1 + HopsTo(NextHop(p, k).i, k)
  }

  /** What lies left of a child q of e_p and is a child of e_p is a child of e_q too. */
  lemma LeftsNest(p: nat, l: nat, u: nat)
    requires p > 0 && l < u < |Inodes(p)|
    ensures var q, a := Inodes(p)[l].left, Inodes(p)[u].left;
      && 0 < a.i < q.i && exists v :: 0 <= v < |Inodes(q.i)| && Inodes(q.i)[v].left == a
  {
    hide Low, Pow2, RootsBelow, Roots, Inodes, IsPerfect, Tiles, Base;
    LeftsBelow(p);
    LeftsAreRoots(p);
    var r := Roots(p - 1);
    RootsAreTheTiling(p - 1, r);
    TilesOrdered(r, 0, p - 1);
    var t, s := |r| - 1 - l, |r| - 1 - u;
    TilesPrefix(r, 0, p - 1, t);
    var q := r[t].i;
    RootsAreTheTiling(q, r[..t + 1]);
    CarryOver(q);
    LeftsAreRoots(q);
    var o := Roots(q - 1);
    assert r[s] == r[..t + 1][..t][s] == o[s];
    assert Inodes(q)[|o| - 1 - s].left == r[s];
  }

  lemma {:induction false} TilesPrefix(s: seq<Addr>, lo: nat, hi: nat, t: nat)
    requires Tiles(s, lo, hi) && t < |s|
    ensures Tiles(s[..t + 1], lo, s[t].i)
    decreases |s|
  {
    var p := s[..t + 1];
    if t > 0 {
      TilesPrefix(s[1..], s[0].i, hi, t - 1);
      assert p[1..] == s[1..][..t];
    } else {
      assert p[1..] == [];
    }
  }

  /** One hop to a child of e_p and on from there is never shorter than going straight. */
  lemma NoShortcut(p: nat, l: nat, k: nat)
    requires p > 0 && l < |Inodes(p)| && 0 < k <= Inodes(p)[l].left.i < p
    ensures HopsTo(p, k) <= 1 + HopsTo(Inodes(p)[l].left.i, k)
  {
    hide Low, Pow2, RootsBelow, Roots, Inodes, IsPerfect, Tiles, Base, NextHop;
    LeftsBelow(p);
    SomeLeftCovers(p, k);
    var q := Inodes(p)[l].left;
    var u := FirstCovering(Inodes(p), k, 0);
    var a := Inodes(p)[u].left;
    NextHopIs(p, k, u);
    if u > l {
      LeftsNest(p, l, u);
      var v :| 0 <= v < |Inodes(q.i)| && Inodes(q.i)[v].left == a;
      NextHopIs(q.i, k, v);
    } else if u < l {
      LeftsAreRoots(p);
      var r := Roots(p - 1);
      RootsAreTheTiling(p - 1, r);
      PerfectBase(a);
      TilesDisjoint(r, 0, p - 1, |r| - 1 - l, |r| - 1 - u, k);
      assert false;
    }
  }

  lemma {:induction false} HopsTriangle(p: nat, q: nat, k: nat)
    requires 0 < k <= q <= p
    ensures HopsTo(p, k) <= HopsTo(p, q) + HopsTo(q, k)
    decreases p
  {
    hide Low, Pow2, RootsBelow, Roots, Inodes, IsPerfect, Tiles, Base;
    if q < p {
      LeftsBelow(p);
      SomeLeftCovers(p, q);
      var l := FirstCovering(Inodes(p), q, 0);
      HopsTriangle(NextHop(p, q).i, q, k);
      NoShortcut(p, l, k);
    }
  }

  /** Within reach of some hops is exactly what is that many hops away or less. */
  lemma {:induction false} ReachIsHops(p: nat, level: nat, k: nat)
    requires 0 < k <= p
    ensures k in Reach(p, level) <==> HopsTo(p, k) <= level
    decreases level
  {
    hide Low, Pow2, RootsBelow, Roots, Inodes, IsPerfect, Tiles, Base, Lefts;
    if k < p && level > 0 {
      LeftsBelow(p);
      InReachAll(Lefts(p), level - 1, k);
      if k in Reach(p, level) {
        var l :| 0 <= l < |Lefts(p)| && k in Reach(Lefts(p)[l], level - 1);
        ReachBelow(Lefts(p)[l], level - 1, k);
        ReachIsHops(Lefts(p)[l], level - 1, k);
        NoShortcut(p, l, k);
      }
      if HopsTo(p, k) <= level {
        SomeLeftCovers(p, k);
        var l := FirstCovering(Inodes(p), k, 0);
        ReachIsHops(NextHop(p, k).i, level - 1, k);
        assert k in Reach(Lefts(p)[l], level - 1);
      }
    }
  }

  /** Every root of T_n but the last is a left child of e_n. */
  lemma RootIsLeft(n: nat, t: nat)
    requires n > 0 && t + 1 < |Roots(n)|
    ensures exists l :: 0 <= l < |Inodes(n)| && Inodes(n)[l].left == Roots(n)[t]
  {
    hide Low, Pow2, RootsBelow, Inodes;
    CarryOver(n);
    LeftsAreRoots(n);
    var r, o := Roots(n), Roots(n - 1);
    assert r[t] == r[..|r| - 1][t] == o[..|r| - 1][t] == o[t];
    assert Inodes(n)[|o| - 1 - t].left == o[t];
  }

  /** Only an entry itself is no hop away. */
  lemma HopsToSelf(n: nat)
    requires n > 0
    ensures HopsTo(n, n) == 0
    ensures forall k :: 0 < k <= n && HopsTo(n, k) == 0 ==> k == n
  {
  }
}
