/** Stratum samples (src/lib.rs, StratumSample): a leaf with the hashes of the siblings of its path, the
    root hash computed from it, and the comparison of two of them. */
module Sampling {
  import opened Words
  import opened Errors
  import opened Merkle
  import opened Subtree
  import opened Walks
  import Shape
  import Formula

  datatype Value = Value(i: u64, value: Bytes)

  datatype StratumSample = StratumSample(revision: u64, leaf: Value, witnesses: map<Shape.Addr, Hash>)

  datatype Prove = Identical | Divergent(nodes: seq<Shape.Addr>)

  /** The siblings of the path from the root of T_n to leaf k. */
  function PathSiblings(n: nat, k: nat): seq<Shape.Addr>
    requires 0 < k <= n
  {
    Shape.RootIsNode(n);
    LeafInSubtree(n, Shape.Height(n), k);
    Siblings(n, Shape.Height(n), Shape.Addr(k, 0))
  }

  /** The sample of leaf k: its payload and the hashes of exactly the siblings of its path. */
  function SampleOf(h: Hashing, xs: seq<Bytes>, k: nat): (s: StratumSample)
    requires 0 < k <= |xs| < TWO64
    ensures s.revision == |xs| && s.leaf.i == k
  {
    StratumSample(|xs|, Value(k, xs[k - 1]), HashesOf(h, xs, PathSiblings(|xs|, k)))
  }

  lemma SampleIs(h: Hashing, xs: seq<Bytes>, k: nat)
    requires 0 < k <= |xs| < TWO64
    ensures Shape.IsNode(|xs|, Shape.Height(|xs|)) && InSubtree(|xs|, Shape.Height(|xs|), Shape.Addr(k, 0))
    ensures var w := HashesOf(h, xs, Siblings(|xs|, Shape.Height(|xs|), Shape.Addr(k, 0)));
      SampleOf(h, xs, k) == StratumSample(|xs|, Value(k, xs[k - 1]), w) && map[] + w == w
  {
    Shape.RootIsNode(|xs|);
    LeafInSubtree(|xs|, Shape.Height(|xs|), k);
  }

  // ----- the size of a sample

  lemma {:induction false} BranchCountIs(ti: u64, i: u64, j: nat, count: nat)
    requires Shape.IsNode(i, j) && Shape.Base(i, j) < ti <= i
    ensures j <= 64 && InSubtree(i, j, Shape.Addr(ti, 0))
    ensures Formula.BranchCount(ti, i, j, count) == count + |Siblings(i, j, Shape.Addr(ti, 0))|
    decreases j
  {
    hide Low, Pow2, BitLen, Shape.IsNode, Shape.Base, InSubtree, Formula.Contains, Formula.IsValid, Formula.SubnodesOf;
    Formula.HeightInWord(i, j);
    LeafInSubtree(i, j, ti);
    if j > 0 {
      Shape.NodeSplit(i, j);
      Descend(i, j, Shape.Addr(ti, 0));
      var l, r := Shape.LeftOf(i, j), Shape.RightOf(i, j);
      if ti <= l.i {
        BranchCountIs(ti, l.i, l.j, count + 1);
      } else {
        BranchCountIs(ti, r.i, r.j, count + 1);
      }
    } else {
      Shape.LeafIsNode(i);
    }
  }

  /** Siblings on a path are all different. */
  lemma {:induction false} SiblingsDiffer(i: nat, j: nat, a: Shape.Addr)
    requires Shape.IsNode(i, j) && InSubtree(i, j, a)
    ensures var s := Siblings(i, j, a); forall t, u :: 0 <= t < u < |s| ==> s[t] != s[u]
    decreases j
  {
    hide Low, Pow2, BitLen, Shape.IsNode, Shape.IsPerfect, Shape.Base, InSubtree;
    if a != Shape.Addr(i, j) {
      Descend(i, j, a);
      Shape.NodeSplit(i, j);
      var l, r := Shape.LeftOf(i, j), Shape.RightOf(i, j);
      var near, far := if a.i <= l.i then l else r, if a.i <= l.i then r else l;
      SiblingsDiffer(near.i, near.j, a);
      SiblingsAreNodes(near.i, near.j, a);
      assert Siblings(i, j, a) == [far] + Siblings(near.i, near.j, a);
    }
  }

  /** A sample has a hash for every sibling of the path and no other: as many as the closed form says. */
  lemma SampleSize(h: Hashing, xs: seq<Bytes>, k: u64)
    requires 0 < k <= |xs| < TWO64
    ensures |SampleOf(h, xs, k).witnesses| == Formula.StratumSampleSize(|xs|, k)
    ensures SampleOf(h, xs, k).witnesses.Keys == set a | a in PathSiblings(|xs|, k)
    ensures forall a :: a in SampleOf(h, xs, k).witnesses ==>
      0 < a.i <= |xs| && SampleOf(h, xs, k).witnesses[a] == NodeHash(h, xs, a.i, a.j)
    ensures SampleOf(h, xs, k).leaf.value == xs[k - 1]
  {
    hide Low, Pow2, Shape.IsNode, InSubtree, NodeHash, Siblings;
    var n := |xs|;
    Shape.RootIsNode(n);
    LeafInSubtree(n, Shape.Height(n), k);
    var s := PathSiblings(n, k);
    BranchCountIs(k, n, Shape.Height(n), 0);
    SiblingsDiffer(n, Shape.Height(n), Shape.Addr(k, 0));
    SiblingsAreNodes(n, Shape.Height(n), Shape.Addr(k, 0));
    DistinctCount(s);
    assert SampleOf(h, xs, k).witnesses.Keys == set a | a in s;
  }

  /** There is no sample of a leaf the tree does not have. */
  lemma SampleSizeOutside(n: u64, k: u64)
    requires n > 0 && (k == 0 || k > n)
    ensures Formula.StratumSampleSize(n, k) == 0
  {
    hide Formula.BranchCount, Low, Pow2, Shape.IsNode;
  }

  lemma {:induction false} DistinctCount<T>(s: seq<T>)
    requires forall t, u :: 0 <= t < u < |s| ==> s[t] != s[u]
    ensures |set a | a in s| == |s|
    decreases |s|
  {
    if s != [] {
      var p, x := s[..|s| - 1], s[|s| - 1];
      DistinctCount(p);
      assert (set a | a in s) == (set a | a in p) + {x};
    }
  }

  /** The leaf of a sample and the nodes its hashes belong to divide the leaves of the tree among them. */
  lemma SampleTiles(n: nat, k: nat, l: nat)
    requires 0 < k <= n
    ensures CoverCount(PathSiblings(n, k), l) == if 0 < l <= n && l != k then 1 else 0
  {
    hide Low, Pow2, Shape.IsNode, InSubtree, Siblings;
    Shape.RootIsNode(n);
    LeafInSubtree(n, Shape.Height(n), k);
    Shape.LeafIsNode(k);
    SiblingsTile(n, Shape.Height(n), Shape.Addr(k, 0), l);
  }

  // ----- the root hash of a sample

  /** The hash of b_{i,j} computed from the leaf up; a witness that is missing is a panic. */
  function ComputeHash(h: Hashing, s: StratumSample, i: u64, j: nat): Result<Hash>
    requires Shape.IsNode(i, j)
    decreases j
  {
    if j == 0 then
      if s.leaf.i == i then Ok(h.FromBytes(0, s.leaf.value)) else Err(SampleVerificationFailed)
    else
      Formula.HeightInWord(i, j);
      Shape.NodeSplit(i, j);
      var (l, r) := Formula.SubnodesOf(i, j);
      Formula.HeightInWord(l.i, l.j);
      Formula.HeightInWord(r.i, r.j);
      if Formula.Contains(l.i, l.j, s.leaf.i) then
        var left :- ComputeHash(h, s, l.i, l.j);
        if r !in s.witnesses then Err(Panicked) else Ok(h.Combine(left, j, s.witnesses[r]))
      else if Formula.Contains(r.i, r.j, s.leaf.i) then
        if l !in s.witnesses then Err(Panicked) else
          var right :- ComputeHash(h, s, r.i, r.j);
          Ok(h.Combine(s.witnesses[l], j, right))
      else Err(SampleVerificationFailed)
  }

  /** There is no root of revision 0 to compute: that trips an assertion. */
  function RootHashOf(h: Hashing, s: StratumSample): Result<Hash> {
    if s.revision == 0 then Err(Panicked) else
      var root := Formula.RootOf(s.revision);
      ComputeHash(h, s, root.i, root.j)
  }

  /** A hash is among the witnesses for every one of these nodes. */
  predicate AllIn(s: seq<Shape.Addr>, w: map<Shape.Addr, Hash>) {
    forall t :: 0 <= t < |s| ==> s[t] in w
  }

  lemma {:induction false} ComputeOutcome(h: Hashing, s: StratumSample, i: u64, j: nat)
    requires Shape.IsNode(i, j) && Shape.Base(i, j) < s.leaf.i <= i
    ensures InSubtree(i, j, Shape.Addr(s.leaf.i, 0))
    ensures ComputeHash(h, s, i, j).Ok? <==> AllIn(Siblings(i, j, Shape.Addr(s.leaf.i, 0)), s.witnesses)
    ensures ComputeHash(h, s, i, j).Err? ==> ComputeHash(h, s, i, j) == Err(Panicked)
    decreases j
  {
    hide Low, Pow2, BitLen, Shape.IsNode, Shape.Base, InSubtree, AllIn;
    hide Formula.Contains, Formula.IsValid, Formula.SubnodesOf;
    var a := Shape.Addr(s.leaf.i, 0);
    LeafInSubtree(i, j, s.leaf.i);
    AllInRest(a, [], s.witnesses);
    if j > 0 {
      Shape.NodeSplit(i, j);
      Descend(i, j, a);
      Formula.HeightInWord(i, j);
      var l, r := Shape.LeftOf(i, j), Shape.RightOf(i, j);
      var near, far := if s.leaf.i <= l.i then l else r, if s.leaf.i <= l.i then r else l;
      ComputeOutcome(h, s, near.i, near.j);
      AllInRest(far, Siblings(near.i, near.j, a), s.witnesses);
    } else {
      Shape.LeafIsNode(i);
    }
  }

  lemma AllInRest(a: Shape.Addr, s: seq<Shape.Addr>, w: map<Shape.Addr, Hash>)
    ensures AllIn([], w)
    ensures AllIn([a] + s, w) <==> a in w && AllIn(s, w)
  {
    var all := [a] + s;
    if AllIn(all, w) {
      assert all[0] == a;
      forall t | 0 <= t < |s|
        ensures s[t] in w
      {
        assert all[t + 1] == s[t];
      }
    }
  }

  /** What becomes of any sample: a leaf that is not in the revision is an error, a missing witness is a
      panic, and with neither there is a root hash. */
  lemma RootHashOutcome(h: Hashing, s: StratumSample)
    ensures s.revision == 0 ==> RootHashOf(h, s) == Err(Panicked)
    ensures s.revision > 0 ==>
      (RootHashOf(h, s) == Err(SampleVerificationFailed) <==> !(0 < s.leaf.i <= s.revision))
    ensures 0 < s.leaf.i <= s.revision ==>
      (RootHashOf(h, s).Ok? <==> AllIn(PathSiblings(s.revision, s.leaf.i), s.witnesses))
    ensures 0 < s.leaf.i <= s.revision && RootHashOf(h, s).Err? ==> RootHashOf(h, s) == Err(Panicked)
  {
    hide Low, Pow2, BitLen, InSubtree, Siblings, AllIn, Shape.Base, Formula.IsValid;
    var n := s.revision;
    if n > 0 {
      Shape.RootIsNode(n);
      if 0 < s.leaf.i <= n {
        ComputeOutcome(h, s, n, Shape.Height(n));
      } else {
        LeafOutside(h, s, n, Shape.Height(n));
      }
    }
  }

  lemma LeafOutside(h: Hashing, s: StratumSample, i: u64, j: nat)
    requires Shape.IsNode(i, j) && !(Shape.Base(i, j) < s.leaf.i <= i)
    ensures ComputeHash(h, s, i, j) == Err(SampleVerificationFailed)
  {
    hide Low, Pow2, BitLen, Shape.IsNode, Shape.Base, Formula.Contains, Formula.IsValid, Formula.SubnodesOf;
    if j > 0 {
      Shape.NodeSplit(i, j);
    } else {
      Shape.LeafIsNode(i);
    }
  }

  /** All siblings have the hashes of xs among the witnesses. */
  ghost predicate Witnessed(h: Hashing, xs: seq<Bytes>, w: map<Shape.Addr, Hash>, s: seq<Shape.Addr>) {
    forall t :: 0 <= t < |s| ==> 0 < s[t].i <= |xs| && s[t] in w && w[s[t]] == NodeHash(h, xs, s[t].i, s[t].j)
  }

  lemma {:induction false} ComputesNodeHash(h: Hashing, xs: seq<Bytes>, s: StratumSample, i: u64, j: nat)
    requires Shape.IsNode(i, j) && i <= |xs| && Shape.Base(i, j) < s.leaf.i <= i && s.leaf.value == xs[s.leaf.i - 1]
    requires InSubtree(i, j, Shape.Addr(s.leaf.i, 0))
    requires Witnessed(h, xs, s.witnesses, Siblings(i, j, Shape.Addr(s.leaf.i, 0)))
    ensures ComputeHash(h, s, i, j) == Ok(NodeHash(h, xs, i, j))
    decreases j
  {
    hide Low, Pow2, BitLen, Shape.IsNode, Shape.Base, InSubtree, NodeHash;
    hide Formula.Contains, Formula.IsValid, Formula.SubnodesOf;
    if j > 0 {
      var a := Shape.Addr(s.leaf.i, 0);
      Shape.NodeSplit(i, j);
      Descend(i, j, a);
      NodeHashSplit(h, xs, i, j);
      Formula.HeightInWord(i, j);
      var l, r := Shape.LeftOf(i, j), Shape.RightOf(i, j);
      var near, far := if s.leaf.i <= l.i then l else r, if s.leaf.i <= l.i then r else l;
      WitnessedRest(h, xs, s.witnesses, far, Siblings(near.i, near.j, a));
      ComputesNodeHash(h, xs, s, near.i, near.j);
    } else {
      Shape.LeafIsNode(i);
      NodeHashLeaf(h, xs, i);
    }
  }

  lemma WitnessedRest(h: Hashing, xs: seq<Bytes>, w: map<Shape.Addr, Hash>, a: Shape.Addr, s: seq<Shape.Addr>)
    requires Witnessed(h, xs, w, [a] + s)
    ensures 0 < a.i <= |xs| && a in w && w[a] == NodeHash(h, xs, a.i, a.j) && Witnessed(h, xs, w, s)
  {
    assert ([a] + s)[0] == a;
    forall t | 0 <= t < |s|
      ensures 0 < s[t].i <= |xs| && s[t] in w && w[s[t]] == NodeHash(h, xs, s[t].i, s[t].j)
    {
      assert ([a] + s)[t + 1] == s[t];
    }
  }

  lemma SampleIsWitnessed(h: Hashing, xs: seq<Bytes>, k: nat)
    requires 0 < k <= |xs| < TWO64
    ensures Witnessed(h, xs, SampleOf(h, xs, k).witnesses, PathSiblings(|xs|, k))
    ensures SampleOf(h, xs, k).witnesses.Keys == set a | a in PathSiblings(|xs|, k)
  {
    hide Low, Pow2, Shape.IsNode, InSubtree, NodeHash, Siblings;
    Shape.RootIsNode(|xs|);
    LeafInSubtree(|xs|, Shape.Height(|xs|), k);
    SiblingsAreNodes(|xs|, Shape.Height(|xs|), Shape.Addr(k, 0));
  }

  /** The root hash computed from a sample is that of the tree it was taken from: no witness is missing. */
  lemma SampleRootHash(h: Hashing, xs: seq<Bytes>, k: nat)
    requires 0 < k <= |xs| < TWO64
    ensures RootHashOf(h, SampleOf(h, xs, k)) == Ok(MerkleHash(h, xs))
  {
    hide Low, Pow2, Shape.IsNode, InSubtree, NodeHash, Siblings, ComputeHash, MerkleHash, HashesOf;
    Shape.RootIsNode(|xs|);
    LeafInSubtree(|xs|, Shape.Height(|xs|), k);
    SampleIsWitnessed(h, xs, k);
    ComputesNodeHash(h, xs, SampleOf(h, xs, k), |xs|, Shape.Height(|xs|));
    RootHash(h, xs);
  }

  // ----- comparing two samples

  /** The larger index, or with the same index the larger height, comes first. */
  predicate Before(a: Shape.Addr, b: Shape.Addr) {
    a.i > b.i || (a.i == b.i && a.j >= b.j)
  }

  predicate Descending(s: seq<Shape.Addr>) {
    |s| > 1 ==> Before(s[0], s[1]) && Descending(s[1..])
  }

  lemma {:induction false} FirstIsLargest(s: seq<Shape.Addr>, a: Shape.Addr)
    requires Descending(s) && a in s
    ensures Before(s[0], a)
    decreases |s|
  {
    if a != s[0] {
      assert s == [s[0]] + s[1..];
      FirstIsLargest(s[1..], a);
    }
  }

  /** By falling index, and by falling height within an index. */
  ghost predicate LastFirst(s: seq<Shape.Addr>) {
    forall t, u :: 0 <= t < u < |s| ==> s[t].i > s[u].i || (s[t].i == s[u].i && s[t].j >= s[u].j)
  }

  lemma {:induction false} DescendingPairs(s: seq<Shape.Addr>)
    requires Descending(s)
    ensures LastFirst(s)
    decreases |s|
  {
    if s != [] {
      DescendingRest(s);
      DescendingPairs(s[1..]);
      forall t, u | 0 <= t < u < |s|
        ensures s[t].i > s[u].i || (s[t].i == s[u].i && s[t].j >= s[u].j)
      {
        if t == 0 {
          FirstIsLargest(s, s[u]);
        } else {
          assert s[1..][t - 1] == s[t] && s[1..][u - 1] == s[u];
        }
      }
    }
  }

  lemma DescendingRest(s: seq<Shape.Addr>)
    requires s != [] && Descending(s)
    ensures Descending(s[1..])
  {
  }

  function Insert(s: seq<Shape.Addr>, a: Shape.Addr): (r: seq<Shape.Addr>)
    requires Descending(s)
    ensures Descending(r) && multiset(r) == multiset(s) + multiset{a}
    ensures r[0] == a || (s != [] && r[0] == s[0])
  {
    if s == [] || Before(a, s[0]) then [a] + s else
      assert s == [s[0]] + s[1..];
      [s[0]] + Insert(s[1..], a)
  }

  function Sort(s: seq<Shape.Addr>): (r: seq<Shape.Addr>)
    ensures Descending(r) && multiset(r) == multiset(s)
  {
    if s == [] then [] else
      assert s == [s[0]] + s[1..];
      Insert(Sort(s[1..]), s[0])
  }

  /** The nodes for which two samples have different hashes, and the leaf if its hash differs. */
  predicate Differs(h: Hashing, a: StratumSample, b: StratumSample, n: Shape.Addr) {
    || DiffersAt(a.witnesses, b.witnesses, n)
    || (n == Shape.Addr(a.leaf.i, 0) && LeafDiffers(h, a, b))
  }

  predicate DiffersAt(v: map<Shape.Addr, Hash>, w: map<Shape.Addr, Hash>, n: Shape.Addr) {
    n in v && n in w && v[n] != w[n]
  }

  predicate LeafDiffers(h: Hashing, a: StratumSample, b: StratumSample) {
    h.FromBytes(0, a.leaf.value) != h.FromBytes(0, b.leaf.value)
  }

  /** Every key that both maps have, with different hashes, is there once, and no other key. */
  ghost predicate Counted(v: map<Shape.Addr, Hash>, w: map<Shape.Addr, Hash>, s: seq<Shape.Addr>) {
    forall n :: multiset(s)[n] == if n in v && n in w && v[n] != w[n] then 1 else 0
  }

  /** The keys with different hashes, in the order they happen to be visited. */
  method DifferingKeys(v: map<Shape.Addr, Hash>, w: map<Shape.Addr, Hash>) returns (r: Result<seq<Shape.Addr>>)
    ensures r.Ok? <==> v.Keys <= w.Keys
    ensures r.Ok? ==> Counted(v, w, r.value)
    ensures r.Err? ==> r.error == Panicked
  {
    var found: seq<Shape.Addr> := [];
    var left := v.Keys;
    while left != {}
      invariant left <= v.Keys && v.Keys - left <= w.Keys
      invariant forall n ::
        multiset(found)[n] == if n !in left && n in v && n in w && v[n] != w[n] then 1 else 0
      decreases |left|
    {
      var n :| n in left;
      left := left - {n};
      if n !in w {
        return Err(Panicked);
      }
      if v[n] != w[n] {
        found := found + [n];
      }
    }
    r := Ok(found);
  }

  /** What two samples are said to show: nothing if they are not of the same leaf and revision, that the
      trees are identical if the root hashes agree, and otherwise the nodes that differ, last one first. */
  ghost predicate Compared(h: Hashing, a: StratumSample, b: StratumSample, r: Result<Prove>) {
    if a.revision != b.revision || a.leaf.i != b.leaf.i then r == Err(SampleVerificationFailed)
    else match (RootHashOf(h, a), RootHashOf(h, b))
      case (Ok(x), Ok(y)) =>
        if x == y then r == Ok(Identical)
        else if a.witnesses.Keys <= b.witnesses.Keys then
          && r.Ok? && r.value.Divergent? && Descending(r.value.nodes)
          && forall n :: n in r.value.nodes <==> Differs(h, a, b, n)
        else r == Err(Panicked)
      case (Ok(_), Err(e)) => r == Err(e)
      case (Err(e), _) => r == Err(e)
  }

  /** Every node is reported as often as it differs: as a witness, and as the leaf. */
  ghost predicate Reported(h: Hashing, a: StratumSample, b: StratumSample, nodes: seq<Shape.Addr>) {
    forall n :: multiset(nodes)[n]
      == (if n in a.witnesses && n in b.witnesses && a.witnesses[n] != b.witnesses[n] then 1 else 0)
       + (if n == Shape.Addr(a.leaf.i, 0) && h.digest(0, a.leaf.value) != h.digest(0, b.leaf.value) then 1 else 0)
  }

  method Compare(h: Hashing, a: StratumSample, b: StratumSample) returns (r: Result<Prove>)
    ensures Compared(h, a, b, r)
    ensures a.revision != b.revision || a.leaf.i != b.leaf.i ==> r == Err(SampleVerificationFailed)
    ensures r.Ok? ==> RootHashOf(h, a).Ok? && RootHashOf(h, b).Ok?
    ensures r.Ok? ==> (r.value == Identical <==> RootHashOf(h, a).value == RootHashOf(h, b).value)
    ensures r.Ok? && r.value.Divergent? ==> Reported(h, a, b, r.value.nodes) && LastFirst(r.value.nodes)
  {
    hide RootHashOf, Descending, Reported, LastFirst, Sort, Differs, DiffersAt;
    if a.revision != b.revision {
      return Err(SampleVerificationFailed);
    } else if a.leaf.i != b.leaf.i {
      return Err(SampleVerificationFailed);
    }
    var ra :- RootHashOf(h, a);
    var rb :- RootHashOf(h, b);
    if ra == rb {
      return Ok(Identical);
    }
    var divergents :- DifferingKeys(a.witnesses, b.witnesses);
    ghost var found := divergents;
    if LeafDiffers(h, a, b) {
      divergents := divergents + [Shape.Addr(a.leaf.i, 0)];
    }
    var nodes := Sort(divergents);
    SortedReport(h, a, b, found, nodes);
    r := Ok(Divergent(nodes));
  }

  lemma SortedReport(h: Hashing, a: StratumSample, b: StratumSample, found: seq<Shape.Addr>, nodes: seq<Shape.Addr>)
    requires Counted(a.witnesses, b.witnesses, found) && Descending(nodes)
    requires var leaf := Shape.Addr(a.leaf.i, 0);
      multiset(nodes) == multiset(found) + if LeafDiffers(h, a, b) then multiset{leaf} else multiset{}
    ensures Reported(h, a, b, nodes) && LastFirst(nodes)
    ensures forall n :: n in nodes <==> Differs(h, a, b, n)
  {
    hide Descending, LastFirst, Reported, Differs;
    DescendingPairs(nodes);
    OneMoreReported(h, a, b, found, nodes);
    ReportedMembers(h, a, b, nodes);
  }

  lemma OneMoreReported(h: Hashing, a: StratumSample, b: StratumSample, found: seq<Shape.Addr>, nodes: seq<Shape.Addr>)
    requires Counted(a.witnesses, b.witnesses, found)
    requires var leaf := Shape.Addr(a.leaf.i, 0);
      multiset(nodes) == multiset(found) + if LeafDiffers(h, a, b) then multiset{leaf} else multiset{}
    ensures Reported(h, a, b, nodes)
  {
  }

  lemma ReportedMembers(h: Hashing, a: StratumSample, b: StratumSample, nodes: seq<Shape.Addr>)
    requires Reported(h, a, b, nodes)
    ensures forall n :: n in nodes <==> Differs(h, a, b, n)
  {
    InMultiset(nodes);
  }

  lemma InMultiset<T>(s: seq<T>)
    ensures forall x :: x in s <==> multiset(s)[x] > 0
  {
    forall x
      ensures x in s <==> multiset(s)[x] > 0
    {
      assert x in s <==> x in multiset(s);
    }
  }

  // ----- what a comparison shows

  /** Nodes that agree all along the path make roots that agree. */
  lemma {:induction false} AgreeingPathAgrees(h: Hashing, xs: seq<Bytes>, ys: seq<Bytes>, i: nat, j: nat, a: Shape.Addr)
    requires Shape.IsNode(i, j) && i <= |xs| && i <= |ys| && InSubtree(i, j, a)
    requires 0 < a.i && NodeHash(h, xs, a.i, a.j) == NodeHash(h, ys, a.i, a.j)
    requires AgreeOn(h, xs, ys, Siblings(i, j, a))
    ensures NodeHash(h, xs, i, j) == NodeHash(h, ys, i, j)
    decreases j
  {
    hide Low, Pow2, BitLen, Shape.IsNode, Shape.Base, InSubtree, NodeHash, Shape.IsPerfect;
    if a != Shape.Addr(i, j) {
      Descend(i, j, a);
      Shape.NodeSplit(i, j);
      NodeHashSplit(h, xs, i, j);
      NodeHashSplit(h, ys, i, j);
      var l, r := Shape.LeftOf(i, j), Shape.RightOf(i, j);
      var near, far := if a.i <= l.i then l else r, if a.i <= l.i then r else l;
      AgreeRest(h, xs, ys, far, Siblings(near.i, near.j, a));
      AgreeingPathAgrees(h, xs, ys, near.i, near.j, a);
    }
  }

  ghost predicate AgreeOn(h: Hashing, xs: seq<Bytes>, ys: seq<Bytes>, s: seq<Shape.Addr>) {
    forall t :: 0 <= t < |s| ==>
      0 < s[t].i <= |xs| && s[t].i <= |ys| && NodeHash(h, xs, s[t].i, s[t].j) == NodeHash(h, ys, s[t].i, s[t].j)
  }

  lemma AgreeRest(h: Hashing, xs: seq<Bytes>, ys: seq<Bytes>, a: Shape.Addr, s: seq<Shape.Addr>)
    requires AgreeOn(h, xs, ys, [a] + s)
    ensures 0 < a.i <= |xs| && a.i <= |ys| && NodeHash(h, xs, a.i, a.j) == NodeHash(h, ys, a.i, a.j)
    ensures AgreeOn(h, xs, ys, s)
  {
    hide NodeHash;
    assert ([a] + s)[0] == a;
    forall t | 0 <= t < |s|
      ensures 0 < s[t].i <= |xs| && s[t].i <= |ys| && NodeHash(h, xs, s[t].i, s[t].j) == NodeHash(h, ys, s[t].i, s[t].j)
    {
      assert ([a] + s)[t + 1] == s[t];
    }
  }

  /** A node carries different hashes in the two trees. */
  ghost predicate HashDiffers(h: Hashing, xs: seq<Bytes>, ys: seq<Bytes>, n: Shape.Addr) {
    0 < n.i <= |xs| && n.i <= |ys| && NodeHash(h, xs, n.i, n.j) != NodeHash(h, ys, n.i, n.j)
  }

  /** For two samples of the same leaf, the nodes reported are exactly the siblings of the path, and the
      leaf itself, whose hashes in the two trees differ. */
  lemma SamplesDiffer(h: Hashing, xs: seq<Bytes>, ys: seq<Bytes>, k: nat, n: Shape.Addr)
    requires 0 < k <= |xs| == |ys| < TWO64
    ensures Differs(h, SampleOf(h, xs, k), SampleOf(h, ys, k), n)
       <==> (n in PathSiblings(|xs|, k) || n == Shape.Addr(k, 0)) && HashDiffers(h, xs, ys, n)
  {
    hide Low, Pow2, Shape.IsNode, InSubtree, NodeHash, PathSiblings, HashesOf;
    SampleIsWitnessed(h, xs, k);
    SampleIsWitnessed(h, ys, k);
    NodeHashLeaf(h, xs, k);
    NodeHashLeaf(h, ys, k);
  }

  /** Comparing the samples of two trees of the same revision never fails. If the roots agree the answer
      is that the trees are identical; if not, at least one node is reported. */
  lemma ComparedSamples(h: Hashing, xs: seq<Bytes>, ys: seq<Bytes>, k: nat, r: Result<Prove>)
    requires 0 < k <= |xs| == |ys| < TWO64
    requires Compared(h, SampleOf(h, xs, k), SampleOf(h, ys, k), r)
    ensures r.Ok?
    ensures r.value == Identical <==> MerkleHash(h, xs) == MerkleHash(h, ys)
    ensures r.value.Divergent? ==> r.value.nodes != [] && Descending(r.value.nodes)
    ensures r.value.Divergent? ==> forall n :: n in r.value.nodes <==>
      (n in PathSiblings(|xs|, k) || n == Shape.Addr(k, 0)) && HashDiffers(h, xs, ys, n)
  {
    hide RootHashOf, Differs, MerkleHash, NodeHash, Siblings, InSubtree, Shape.IsNode, Low, Pow2, HashesOf;
    SampleRootHash(h, xs, k);
    SampleRootHash(h, ys, k);
    SampleIsWitnessed(h, xs, k);
    SampleIsWitnessed(h, ys, k);
    forall n
      ensures Differs(h, SampleOf(h, xs, k), SampleOf(h, ys, k), n)
         <==> (n in PathSiblings(|xs|, k) || n == Shape.Addr(k, 0)) && HashDiffers(h, xs, ys, n)
    {
      SamplesDiffer(h, xs, ys, k, n);
    }
    if MerkleHash(h, xs) != MerkleHash(h, ys) {
      var n := SomethingDiffers(h, xs, ys, k);
      assert Differs(h, SampleOf(h, xs, k), SampleOf(h, ys, k), n);
    }
  }

  lemma SomethingDiffers(h: Hashing, xs: seq<Bytes>, ys: seq<Bytes>, k: nat) returns (n: Shape.Addr)
    requires 0 < k <= |xs| == |ys| && MerkleHash(h, xs) != MerkleHash(h, ys)
    ensures (n in PathSiblings(|xs|, k) || n == Shape.Addr(k, 0)) && HashDiffers(h, xs, ys, n)
  {
    hide Low, Pow2, Shape.IsNode, InSubtree, NodeHash, MerkleHash, Siblings;
    var i, j := |xs|, Shape.Height(|xs|);
    var leaf := Shape.Addr(k, 0);
    Shape.RootIsNode(i);
    LeafInSubtree(i, j, k);
    RootHash(h, xs);
    RootHash(h, ys);
    var s := PathSiblings(i, k);
    SiblingsAreNodes(i, j, leaf);
    if HashDiffers(h, xs, ys, leaf) {
      n := leaf;
    } else if t :| 0 <= t < |s| && HashDiffers(h, xs, ys, s[t]) {
      n := s[t];
    } else {
      assert AgreeOn(h, xs, ys, s);
      AgreeingPathAgrees(h, xs, ys, i, j, leaf);
      assert false;
    }
  }
}
