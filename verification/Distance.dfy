/** The access-distance formulas of src/formula.rs: how many hops away an entry is, and for every
    distance the largest and the smallest index that lies at it. */
module Distance {
  import opened Words
  import opened Shape
  import opened Formula
  import opened Errors
  import opened Hops

  // ----- counting ones

  lemma {:induction false} OnesAtMost(x: nat, j: nat)
    requires x < Pow2(j)
    ensures CountOnes(x) <= j
  {
    if j > 0 {
      OnesAtMost(x / 2, j - 1);
    }
  }

  /** The least number with so many ones has them at the bottom. */
  lemma {:induction false} OnesBelow(x: nat)
    ensures Pow2(CountOnes(x)) - 1 <= x
  {
    if x > 0 {
      OnesBelow(x / 2);
      Pow2Mono(CountOnes(x / 2), CountOnes(x));
    }
  }

  lemma {:induction false} OnesOfMask(e: nat)
    ensures CountOnes(Pow2(e) - 1) == e
  {
    if e > 0 {
      OnesOfMask(e - 1);
      assert (Pow2(e) - 1) / 2 == Pow2(e - 1) - 1;
    }
  }

  lemma {:induction false} OnesOfComplement(x: nat, j: nat)
    requires x < Pow2(j)
    ensures CountOnes(Pow2(j) - 1 - x) == j - CountOnes(x)
  {
    if j > 0 {
      OnesOfComplement(x / 2, j - 1);
      assert (Pow2(j) - 1 - x) / 2 == Pow2(j - 1) - 1 - x / 2;
    }
  }

  /** Inside a perfect subtree of height j, an index with z zeros among its digits: at most 2^j - 2^z,
      which has as many itself, and at least 2^(j-z) - 1, likewise. */
  lemma ZerosBound(x: nat, j: nat)
    requires x < Pow2(j)
    ensures CountOnes(x) <= j
    ensures Pow2(CountOnes(x)) - 1 <= x <= Pow2(j) - Pow2(j - CountOnes(x))
  {
    OnesAtMost(x, j);
    OnesBelow(x);
    OnesOfComplement(x, j);
    OnesBelow(Pow2(j) - 1 - x);
  }

  lemma ZerosReached(j: nat, z: nat)
    requires z <= j
    ensures Pow2(z) <= Pow2(j) && CountOnes(Pow2(j) - Pow2(z)) == j - z
  {
    Pow2Mono(z, j);
    OnesOfMask(z);
    OnesOfComplement(Pow2(z) - 1, j);
  }

  // ----- the distance of one entry

  function FindRoot(s: seq<Addr>, k: u64): Option<Addr>
    requires forall t :: 0 <= t < |s| ==> 0 < s[t].i < TWO64 && s[t].j <= 64
  {
    if s == [] then None
    else if Contains(s[0].i, s[0].j, k) then Some(s[0])
    else FindRoot(s[1..], k)
  }

  lemma RootsInWord(n: u64)
    ensures forall t :: 0 <= t < |Roots(n)| ==>
      0 < Roots(n)[t].i <= n && Roots(n)[t].j < 64 && IsPerfect(Roots(n)[t])
  {
    hide Low, Pow2, IsPerfect, RootsBelow;
    Pow2Of64();
    BitLenAtMost(n, 64);
    RootsTile(n, BitLen(n));
    RootsAreTheTiling(n, Roots(n));
    TilesOrdered(Roots(n), 0, n);
  }

  function EntryAccessDistance(k: u64, n: u64): Option<nat> {
    RootsInWord(n);
    match FindRoot(Roots(n), k)
    case None => None
    case Some(root) =>
      FindRootCovers(Roots(n), k);
      DistanceIsNat(root, k);
      Some(root.j - CountOnes(k - Range(root.i, root.j).0) + (if root.i != n then 1 else 0))
  }

  lemma {:induction false} FindRootCovers(s: seq<Addr>, k: u64)
    requires forall t :: 0 <= t < |s| ==> 0 < s[t].i < TWO64 && s[t].j <= 64
    ensures FindRoot(s, k).Some? ==> FindRoot(s, k).value in s && Covers(FindRoot(s, k).value, k)
    ensures FindRoot(s, k) == None ==> forall t :: 0 <= t < |s| ==> !Covers(s[t], k)
  {
    if s != [] {
      FindRootCovers(s[1..], k);
      assert s == [s[0]] + s[1..];
    }
  }

  lemma DistanceIsNat(root: Addr, k: u64)
    requires IsPerfect(root) && Covers(root, k)
    ensures k - Base(root.i, root.j) - 1 >= 0 && CountOnes(k - Base(root.i, root.j) - 1) <= root.j
  {
    OnesAtMost(k - Base(root.i, root.j) - 1, root.j);
  }

  /** Inside a perfect subtree, from its own entry: one hop for every 0 among the digits of the offset. */
  lemma {:induction false} PerfectHops(q: nat, b: nat, k: nat)
    requires IsPerfect(Addr(q, b)) && Base(q, b) < k <= q
    ensures var x := k - Base(q, b) - 1;
      CountOnes(x) <= b && HopsTo(q, k) == b - CountOnes(x)
    decreases b
  {
    hide Low, BitLen, NextHop, Inodes, IsNode, Lefts, CountOnes, LeftOf, RightOf;
    var x := k - Base(q, b) - 1;
    OnesAtMost(x, b);
    if b > 0 {
      PerfectSpine(q, b);
      PerfectIsNode(Addr(q, b));
      NodeSplit(q, b);
      var l := LeftOf(q, b);
      if k > l.i {
        PerfectHops(q, b - 1, k);
        CountOnesHigh(x - Pow2(b - 1), b - 1);
      } else {
        PerfectHops(l.i, b - 1, k);
        var t := NodeIsInode(q, b);
        LeftsBelow(q);
        NextHopIs(q, k, t);
      }
    }
  }

  /** How far entry k is from e_n, for the root of T_n above it. */
  lemma DistanceUnderRoot(n: nat, t: nat, k: nat)
    requires t < |Roots(n)| && IsPerfect(Roots(n)[t]) && Covers(Roots(n)[t], k) && k <= n
    ensures var r := Roots(n)[t];
      && CountOnes(k - Base(r.i, r.j) - 1) <= r.j
      && HopsTo(n, k) == r.j - CountOnes(k - Base(r.i, r.j) - 1) + (if r.i != n then 1 else 0)
  {
    hide Low, Pow2, BitLen, NextHop, Base, IsPerfect, RootsBelow, Joints;
    var r := Roots(n)[t];
    PerfectHops(r.i, r.j, k);
    if r.i != n {
      RootsAreTheTiling(n, Roots(n));
      TilesOrdered(Roots(n), 0, n);
      RootIsLeft(n, t);
      var l :| 0 <= l < |Inodes(n)| && Inodes(n)[l].left == r;
      LeftsBelow(n);
      NextHopIs(n, k, l);
    }
  }

  /** The closed form counts the hops to every entry of generation n, and answers nothing else. */
  lemma DistanceIsHops(k: u64, n: u64)
    ensures EntryAccessDistance(k, n) == if 0 < k <= n then Some(HopsTo(n, k)) else None
  {
    hide Low, Pow2, BitLen, Base, IsPerfect, RootsBelow, HopsTo, Roots, FindRoot;
    RootsInWord(n);
    var s := Roots(n);
    FindRootCovers(s, k);
    RootsAreTheTiling(n, s);
    if 0 < k <= n {
      var u := CoveringRoot(s, 0, n, k);
      PerfectBase(s[u]);
      assert Covers(s[u], k);
      var root := FindRoot(s, k).value;
      var t :| 0 <= t < |s| && s[t] == root;
      DistanceUnderRoot(n, t, k);
    }
  }

  // ----- the limits for every distance

  /** One more hop is needed for everything that is not under the last root. */
  function Detour(n: nat, r: Addr): nat {
    if r.i != n then 1 else 0
  }

  /** The largest index under root r at distance d, 0 if there is none. */
  function LargestUnder(n: nat, r: Addr, d: nat): nat {
    var z := d - Detour(n, r);
    if 0 <= z <= r.j && Pow2(z) <= r.i then r.i + 1 - Pow2(z) else 0
  }

  /** The largest index at distance d under the roots s: the last root that has one decides. */
  function Largest(n: nat, s: seq<Addr>, d: nat): nat {
    if s == [] then 0 else
      var right := Largest(n, s[1..], d);
      if right != 0 then right else LargestUnder(n, s[0], d)
  }

  /** Where root t of T_n starts. */
  function StartOf(s: seq<Addr>, t: nat): nat
    requires t <= |s|
  {
    if t == 0 then 0 else s[t - 1].i
  }

  /** What is known of the roots of T_n from the left. */
  lemma RootFacts(n: u64, t: nat)
    requires t < |Roots(n)|
    ensures var s := Roots(n);
      && IsPerfect(s[t]) && s[t].j < 64 && 0 < s[t].i <= n
      && Base(s[t].i, s[t].j) == StartOf(s, t)
      && (s[t].i == n <==> t == |s| - 1)
      && (t + 1 < |s| ==> s[t + 1].j < s[t].j)
      && (t + 1 == |s| ==> s[t].i == n)
  {
    hide Low, Pow2, BitLen, RootsBelow, IsPerfect;
    var s := Roots(n);
    RootsInWord(n);
    RootsAreTheTiling(n, s);
    TilesOrdered(s, 0, n);
    PerfectBase(s[t]);
    TilesStep(s, 0, n, t);
  }

  lemma {:induction false} TilesStep(s: seq<Addr>, lo: nat, hi: nat, t: nat)
    requires Tiles(s, lo, hi) && t < |s|
    ensures s[t].i == (if t == 0 then lo else s[t - 1].i) + Pow2(s[t].j)
    decreases |s|
  {
    if t > 0 {
      TilesStep(s[1..], s[0].i, hi, t - 1);
    }
  }

  /** The distances under one root: z zeros among the digits of the offset, and the detour. */
  lemma UnderRoot(n: u64, t: nat, d: nat)
    requires t < |Roots(n)|
    ensures var s := Roots(n); var u := LargestUnder(n, s[t], d);
      && s[t].i <= n
      && (u != 0 <==> Detour(n, s[t]) <= d <= s[t].j + Detour(n, s[t]))
      && (u != 0 ==> StartOf(s, t) < u <= s[t].i && HopsTo(n, u) == d)
      && forall k :: StartOf(s, t) < k <= s[t].i ==>
        && Detour(n, s[t]) <= HopsTo(n, k) <= s[t].j + Detour(n, s[t])
        && (HopsTo(n, k) == d ==> k <= u)
  {
    hide Low, BitLen, RootsBelow, IsPerfect, HopsTo, Roots, CountOnes, Base;
    var s := Roots(n);
    var r := s[t];
    RootFacts(n, t);
    PerfectBase(r);
    var z := d - Detour(n, r);
    if 0 <= z <= r.j {
      ZerosReached(r.j, z);
      DistanceUnderRoot(n, t, r.i + 1 - Pow2(z));
    }
    forall k | StartOf(s, t) < k <= r.i
      ensures Detour(n, r) <= HopsTo(n, k) <= r.j + Detour(n, r)
      ensures HopsTo(n, k) == d ==> k <= LargestUnder(n, r, d)
    {
      DistanceUnderRoot(n, t, k);
      ZerosBound(k - Base(r.i, r.j) - 1, r.j);
    }
  }

  /** Among the leaves from root t on, Largest finds the largest index at distance d; there is one for
      every distance up to that of the first leaf of root t, and none beyond. */
  lemma {:induction false} LargestIs(n: u64, t: nat, d: nat)
    requires t < |Roots(n)|
    ensures var s := Roots(n); var u := Largest(n, s[t..], d);
      && (u != 0 <==> d <= s[t].j + Detour(n, s[t]))
      && (u != 0 ==> StartOf(s, t) < u <= n && HopsTo(n, u) == d)
      && forall k :: StartOf(s, t) < k <= n ==>
        && HopsTo(n, k) <= s[t].j + Detour(n, s[t])
        && (HopsTo(n, k) == d ==> k <= u)
    decreases |Roots(n)| - t
  {
    hide Low, Pow2, BitLen, RootsBelow, IsPerfect, HopsTo, Roots, LargestUnder;
    var s := Roots(n);
    RootFacts(n, t);
    UnderRoot(n, t, d);
    assert s[t..][1..] == s[t + 1..];
    if t + 1 < |s| {
      LargestIs(n, t + 1, d);
    }
  }

  lemma {:induction false} LargestFalls(n: u64, t: nat, d: nat)
    requires t < |Roots(n)| && Largest(n, Roots(n)[t..], d + 1) != 0
    ensures Largest(n, Roots(n)[t..], d + 1) < Largest(n, Roots(n)[t..], d)
    decreases |Roots(n)| - t
  {
    hide Low, BitLen, RootsBelow, IsPerfect, HopsTo, Roots, LargestUnder;
    var s := Roots(n);
    RootFacts(n, t);
    LargestIs(n, t, d + 1);
    LargestIs(n, t, d);
    UnderRoot(n, t, d + 1);
    assert s[t..][1..] == s[t + 1..];
    if t + 1 < |s| {
      LargestIs(n, t + 1, d);
      LargestIs(n, t + 1, d + 1);
      if Largest(n, s[t + 1..], d + 1) != 0 {
        LargestFalls(n, t + 1, d);
      } else if Largest(n, s[t + 1..], d) == 0 {
        UnderFalls(n, s[t], d);
      }
    } else {
      UnderFalls(n, s[t], d);
    }
  }

  lemma UnderFalls(n: nat, r: Addr, d: nat)
    requires LargestUnder(n, r, d + 1) != 0 && d >= Detour(n, r)
    ensures LargestUnder(n, r, d + 1) < LargestUnder(n, r, d)
  {
    Pow2Mono(d - Detour(n, r), d + 1 - Detour(n, r));
  }

  /** The smallest index at distance d > 0: a power of two under the first root. */
  lemma SmallestIs(n: u64, d: nat)
    requires n > 0 && |Roots(n)| > 0
    requires var r := Roots(n)[0]; 0 < d <= r.j + Detour(n, r)
    ensures var r := Roots(n)[0]; var u := Pow2(r.j + Detour(n, r) - d);
      && 0 < u <= n && HopsTo(n, u) == d
      && forall k :: 0 < k <= n && HopsTo(n, k) == d ==> u <= k
  {
    hide Low, BitLen, RootsBelow, IsPerfect, HopsTo, Roots, CountOnes, Base;
    var r := Roots(n)[0];
    RootFacts(n, 0);
    PerfectBase(r);
    var e := r.j + Detour(n, r) - d;
    Pow2Mono(e, r.j);
    OnesOfMask(e);
    DistanceUnderRoot(n, 0, Pow2(e));
    forall k | 0 < k <= n && HopsTo(n, k) == d
      ensures Pow2(e) <= k
    {
      if k <= r.i {
        DistanceUnderRoot(n, 0, k);
        OnesBelow(k - 1);
      }
    }
  }

  /** The height of the first root is that of the tree, less the detour. */
  lemma FirstRootHeight(n: u64)
    requires n > 0
    ensures |Roots(n)| > 0
    ensures var r := Roots(n)[0]; r.j + Detour(n, r) == Height(n) && r.i == Pow2(r.j) && r.j < 64
  {
    hide Low, RootsBelow, IsPerfect, Roots, Tiles;
    var s := Roots(n);
    RootsAreTheTiling(n, s);
    NonEmptyTiling(s, 0, n);
    RootFacts(n, 0);
    TilesSpan(s, 0, n);
    BitLenUnique(n - 1, s[0].j + Detour(n, s[0]));
  }

  lemma NonEmptyTiling(s: seq<Addr>, lo: nat, hi: nat)
    requires Tiles(s, lo, hi) && lo < hi
    ensures s != [] && s[0].i == lo + Pow2(s[0].j)
  {
  }

  /** Ranges of indices for the distances 0, 1, ..: put side by side, from the last, they are 1 .. n. */
  ghost predicate RangesTile(n: nat, r: seq<(nat, nat)>) {
    && |r| > 0 && r[0].1 == n && r[|r| - 1].0 == 1
    && (forall d :: 0 <= d < |r| ==> r[d].0 <= r[d].1)
    && (forall d :: 0 <= d < |r| - 1 ==> r[d].0 == r[d + 1].1 + 1)
  }

  /** Range d ends at the largest index at distance d, and nothing in it is further away than d. */
  ghost predicate UpperLimits(n: nat, r: seq<(nat, nat)>) {
    && (forall d :: 0 <= d < |r| ==> 0 < r[d].0 <= r[d].1 <= n && HopsTo(n, r[d].1) == d)
    && (forall d, k :: 0 <= d < |r| && 0 < k <= n && HopsTo(n, k) == d ==> k <= r[d].1)
    && (forall d, k :: 0 <= d < |r| && 0 < r[d].0 <= k <= r[d].1 <= n ==> HopsTo(n, k) <= d)
  }

  /** Range d starts at the smallest index at distance d, and nothing in it is nearer than d. */
  ghost predicate LowerLimits(n: nat, r: seq<(nat, nat)>) {
    && (forall d :: 0 <= d < |r| ==> 0 < r[d].0 <= r[d].1 <= n && HopsTo(n, r[d].0) == d)
    && (forall d, k :: 0 <= d < |r| && 0 < k <= n && HopsTo(n, k) == d ==> r[d].0 <= k)
    && (forall d, k :: 0 <= d < |r| && 0 < r[d].0 <= k <= r[d].1 <= n ==> d <= HopsTo(n, k))
  }

  method LowerRanges(n: u64, roots: seq<Addr>) returns (ll: seq<(nat, nat)>)
    requires n > 0 && roots == Roots(n)
    ensures RangesTile(n, ll) && LowerLimits(n, ll)
  {
    hide Roots, HopsTo, Height;
    FirstRootHeight(n);
    var h := roots[0].j;
    var marks: seq<nat> := [];
    for d := 0 to h + 1
      invariant |marks| == d && forall e :: 0 <= e < d ==> marks[e] == Pow2(h - e)
    {
      marks := marks + [Pow2e(h - d)];
    }
    RootFacts(n, 0);
    if |roots| > 1 {
      marks := [n] + marks;
    }
    ghost var top := h + Detour(n, roots[0]);
    assert |marks| == top + 1 && marks[0] == n;
    assert forall d :: 0 < d <= top ==> marks[d] == Pow2(top - d);
    ll := [(n, n)];
    for w := 0 to |marks| - 1
      invariant |ll| == w + 1 && ll[0] == (n, n)
      invariant forall d :: 0 < d <= w ==> ll[d] == (marks[d], marks[d - 1] - 1)
    {
      MarksFall(n, roots[0], marks, w);
      ll := ll + [(marks[w + 1], marks[w] - 1)];
    }
    LowerRangesCorrect(n, ll, marks);
  }

  lemma MarksFall(n: u64, r: Addr, marks: seq<nat>, w: nat)
    requires n > 0 && |Roots(n)| > 0 && r == Roots(n)[0]
    requires w + 1 < |marks| && |marks| == r.j + Detour(n, r) + 1 && marks[0] == n
    requires forall d :: 0 < d < |marks| ==> marks[d] == Pow2(r.j + Detour(n, r) - d)
    ensures 0 < marks[w + 1] < marks[w] <= n
  {
    hide Roots, BitLen;
    FirstRootHeight(n);
    RootFacts(n, 0);
    var top := r.j + Detour(n, r);
    Pow2Mono(top - w - 1, r.j);
    if w > 0 {
      Pow2Mono(top - w, r.j);
      Pow2Mono(top - w - 1, top - w);
    }
  }

  /** The marks are n and then falling powers of two; range d reaches from mark d to the mark before it. */
  ghost predicate LowerMarks(n: u64, ll: seq<(nat, nat)>, marks: seq<nat>)
    requires |Roots(n)| > 0
  {
    var top := Roots(n)[0].j + Detour(n, Roots(n)[0]);
    && |ll| == |marks| == top + 1 && marks[0] == n && ll[0] == (n, n)
    && forall d :: 0 < d <= top ==> marks[d] == Pow2(top - d) && ll[d] == (marks[d], marks[d - 1] - 1)
  }

  lemma LowerMarkIs(n: u64, ll: seq<(nat, nat)>, marks: seq<nat>, d: nat)
    requires n > 0 && |Roots(n)| > 0 && LowerMarks(n, ll, marks) && d < |ll|
    ensures |marks| == |ll| && 0 < ll[d].0 <= ll[d].1 <= n && ll[d].0 == marks[d] && HopsTo(n, ll[d].0) == d
    ensures d == 0 ==> ll[d].1 == n
    ensures d > 0 ==> ll[d].1 == marks[d - 1] - 1 && marks[d] < marks[d - 1] <= n
    ensures forall k :: 0 < k <= n && HopsTo(n, k) == d ==> marks[d] <= k
  {
    hide Roots, HopsTo, BitLen;
    HopsToSelf(n);
    if d > 0 {
      MarksFall(n, Roots(n)[0], marks, d - 1);
      SmallestIs(n, d);
    }
  }

  lemma {:induction false} MarksOrdered(n: u64, ll: seq<(nat, nat)>, marks: seq<nat>, e: nat, d: nat)
    requires n > 0 && |Roots(n)| > 0 && LowerMarks(n, ll, marks) && e <= d < |ll|
    ensures |marks| == |ll| && marks[d] <= marks[e]
    decreases d
  {
    hide Roots, HopsTo, LowerMarks;
    LowerMarkIs(n, ll, marks, d);
    if e < d {
      MarksOrdered(n, ll, marks, e, d - 1);
    }
  }

  /** Nothing in range d is nearer than d: what is nearer lies above an earlier mark. */
  lemma NoneNearer(n: u64, ll: seq<(nat, nat)>, marks: seq<nat>, d: nat, k: nat)
    requires n > 0 && |Roots(n)| > 0 && LowerMarks(n, ll, marks) && d < |ll|
    requires 0 < ll[d].0 <= k <= ll[d].1 <= n
    ensures d <= HopsTo(n, k)
  {
    hide Roots, HopsTo, LowerMarks;
    var e := HopsTo(n, k);
    LowerMarkIs(n, ll, marks, d);
    if e < d {
      LowerMarkIs(n, ll, marks, e);
      MarksOrdered(n, ll, marks, e, d - 1);
    }
  }

  lemma LastMark(n: u64, ll: seq<(nat, nat)>, marks: seq<nat>)
    requires n > 0 && |Roots(n)| > 0 && LowerMarks(n, ll, marks)
    ensures |ll| > 0 && ll[|ll| - 1].0 == 1
  {
    hide Roots;
    FirstRootHeight(n);
    var top := |ll| - 1;
    if top > 0 {
      assert marks[top] == Pow2(top - top) && ll[top] == (marks[top], marks[top - 1] - 1);
    } else {
      HeightOne(n);
    }
  }

  lemma LowerRangesCorrect(n: u64, ll: seq<(nat, nat)>, marks: seq<nat>)
    requires n > 0 && |Roots(n)| > 0 && LowerMarks(n, ll, marks)
    ensures RangesTile(n, ll) && LowerLimits(n, ll)
  {
    hide Roots, HopsTo, LowerMarks;
    LastMark(n, ll, marks);
    LowerMarkIs(n, ll, marks, 0);
    forall d | 0 <= d < |ll|
      ensures 0 < ll[d].0 <= ll[d].1 <= n && HopsTo(n, ll[d].0) == d
      ensures d + 1 < |ll| ==> ll[d].0 == ll[d + 1].1 + 1
      ensures forall k :: 0 < k <= n && HopsTo(n, k) == d ==> ll[d].0 <= k
    {
      LowerMarkIs(n, ll, marks, d);
      if d + 1 < |ll| {
        LowerMarkIs(n, ll, marks, d + 1);
      }
    }
    forall d, k | 0 <= d < |ll| && 0 < ll[d].0 <= k <= ll[d].1 <= n
      ensures d <= HopsTo(n, k)
    {
      NoneNearer(n, ll, marks, d, k);
    }
  }

  lemma HeightOne(n: nat)
    requires n > 0 && Height(n) == 0
    ensures n == 1
  {
    HeightBounds(n);
  }

  method UpperRanges(n: u64, roots: seq<Addr>) returns (ul: seq<(nat, nat)>)
    requires n > 0 && roots == Roots(n)
    ensures RangesTile(n, ul) && UpperLimits(n, ul)
  {
    hide Roots, HopsTo, Low, BitLen, Pow2;
    FirstRootHeight(n);
    var h := CeilLog2(n);
    var acc: seq<nat> := seq(h + 1, _ => 0);
    for x := 0 to |roots|
      invariant |acc| == h + 1
      invariant forall d :: 0 <= d <= h ==> acc[d] == Largest(n, roots[|roots| - x..], d)
    {
      var t := |roots| - 1 - x;
      var root := roots[t];
      RootFacts(n, t);
      HighestRoot(n, t);
      var list := UnderRootList(n, root, x == 0);
      ghost var before := acc;
      assert roots[t..][1..] == roots[t + 1..];
      for d := 0 to |list|
        invariant |acc| == h + 1
        invariant forall e :: 0 <= e < d ==> acc[e] == Largest(n, roots[t..], e)
        invariant forall e :: d <= e <= h ==> acc[e] == before[e]
      {
        if acc[d] == 0 {
          acc := acc[d := list[d]];
        }
      }
    }
    assert roots[0..] == roots;
    ul := [];
    for w := 0 to |acc| - 1
      invariant |ul| == w && forall d :: 0 <= d < w ==> ul[d] == (acc[d + 1] + 1, acc[d])
    {
      ul := ul + [(acc[w + 1] + 1, acc[w])];
    }
    ul := ul + [(1, 1)];
    UpperRangesCorrect(n, ul, acc);
  }

  /** The largest indices under one root, by distance; 0 for the distances it does not have. */
  method UnderRootList(n: u64, root: Addr, rightMost: bool) returns (list: seq<nat>)
    requires IsPerfect(root) && root.j < 64 && 0 < root.i <= n && (rightMost <==> root.i == n)
    ensures |list| == root.j + Detour(n, root) + 1
    ensures forall d :: 0 <= d < |list| ==> list[d] == LargestUnder(n, root, d)
    ensures forall d :: d >= |list| ==> LargestUnder(n, root, d) == 0
  {
    var h := root.j;
    var size: u64 := Pow2e(h);
    var offset: u64 := Range(root.i, root.j).0 - 1;
    list := [];
    if !rightMost {
      list := [0];
    }
    for d := 0 to h + 1
      invariant |list| == d + Detour(n, root)
      invariant forall e :: 0 <= e < |list| ==> list[e] == LargestUnder(n, root, e)
    {
      Pow2Mono(d, h);
      var above: u64 := size + 1;
      var inside: u64 := above - Pow2e(d);
      var index: u64 := offset + inside;
      list := list + [index];
    }
  }

  /** No root reaches further than the first. */
  lemma {:induction false} HighestRoot(n: u64, t: nat)
    requires n > 0 && t < |Roots(n)|
    ensures Roots(n)[t].j + Detour(n, Roots(n)[t]) <= Height(n)
    decreases t
  {
    hide Roots, BitLen;
    if t == 0 {
      FirstRootHeight(n);
    } else {
      RootFacts(n, t - 1);
      HighestRoot(n, t - 1);
    }
  }

  lemma UpperRangesCorrect(n: u64, ul: seq<(nat, nat)>, acc: seq<nat>)
    requires n > 0 && |Roots(n)| > 0 && |acc| == |ul| == Height(n) + 1
    requires forall d :: 0 <= d < |acc| ==> acc[d] == Largest(n, Roots(n), d)
    requires forall d :: 0 <= d < |ul| - 1 ==> ul[d] == (acc[d + 1] + 1, acc[d])
    requires ul[|ul| - 1] == (1, 1)
    ensures RangesTile(n, ul) && UpperLimits(n, ul)
  {
    hide Roots, HopsTo, Low, BitLen, Pow2, Largest;
    FirstRootHeight(n);
    HopsToSelf(n);
    assert Roots(n)[0..] == Roots(n);
    forall d | 0 <= d < |acc|
      ensures 0 < acc[d] <= n && HopsTo(n, acc[d]) == d
      ensures forall k :: 0 < k <= n && HopsTo(n, k) == d ==> k <= acc[d]
      ensures d + 1 < |acc| ==> acc[d + 1] < acc[d]
    {
      LargestIs(n, 0, d);
      if d + 1 < |acc| {
        LargestIs(n, 0, d + 1);
        LargestFalls(n, 0, d);
      }
    }
    FarthestIsOne(n);
    assert acc[|acc| - 1] == 1;
    forall d | 0 <= d < |ul|
      ensures ul[d].1 == acc[d] && (d + 1 < |ul| ==> ul[d].0 == acc[d + 1] + 1) && 0 < ul[d].0 <= ul[d].1
    {
      assert d + 1 < |ul| ==> acc[d + 1] < acc[d];
      assert d + 1 < |ul| ==> ul[d] == (acc[d + 1] + 1, acc[d]);
    }
    forall d, k | 0 <= d < |ul| && 0 < ul[d].0 <= k <= ul[d].1 <= n
      ensures HopsTo(n, k) <= d
    {
      var e := HopsTo(n, k);
      LargestIs(n, 0, e);
      if d < e {
        AccOrdered(acc, d + 1, e);
      }
    }
  }

  lemma {:induction false} AccOrdered(acc: seq<nat>, d: nat, e: nat)
    requires d <= e < |acc| && forall d :: 0 <= d < |acc| - 1 ==> acc[d + 1] < acc[d]
    ensures acc[e] <= acc[d]
    decreases e
  {
    if d < e {
      AccOrdered(acc, d, e - 1);
    }
  }

  /** Entry 1 alone lies at the greatest distance, the height of the tree. */
  lemma FarthestIsOne(n: u64)
    requires n > 0
    ensures HopsTo(n, 1) == Height(n)
    ensures forall k :: 0 < k <= n && HopsTo(n, k) == Height(n) ==> k == 1
  {
    hide Roots, HopsTo, Low, BitLen, Base, IsPerfect;
    FirstRootHeight(n);
    RootFacts(n, 0);
    var r := Roots(n)[0];
    PerfectBase(r);
    DistanceUnderRoot(n, 0, 1);
    forall k | 0 < k <= n && HopsTo(n, k) == Height(n)
      ensures k == 1
    {
      if k <= r.i {
        DistanceUnderRoot(n, 0, k);
        NoOnes(k - 1);
      } else {
        LargestIs(n, 1, Height(n));
      }
    }
  }

  /** No entry is further away than the tree is high. */
  lemma HopsAtMostHeight(n: u64, k: nat)
    requires 0 < k <= n
    ensures HopsTo(n, k) <= Height(n)
  {
    hide Roots, HopsTo, Low, BitLen, Pow2, Largest;
    FirstRootHeight(n);
    LargestIs(n, 0, 0);
    assert Roots(n)[0..] == Roots(n);
  }

  lemma {:induction false} NoOnes(x: nat)
    requires CountOnes(x) == 0
    ensures x == 0
  {
    if x > 0 {
      NoOnes(x / 2);
    }
  }

  /** For every distance, the range of indices for which it is an upper, and a lower, bound. */
  method EntryAccessDistanceLimits(n: u64) returns (ul: seq<(nat, nat)>, ll: seq<(nat, nat)>)
    ensures n == 0 ==> ul == [] && ll == []
    ensures n > 0 ==> RangesTile(n, ul) && UpperLimits(n, ul)
    ensures n > 0 ==> RangesTile(n, ll) && LowerLimits(n, ll)
  {
    if n == 0 {
      return [], [];
    }
    var roots := PbstRoots(n);
    ll := LowerRanges(n, roots);
    ul := UpperRanges(n, roots);
  }
}
