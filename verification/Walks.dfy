/** Walking a tree from its root (src/lib.rs, walk_down) as it has to be: over the tree of a payload
    sequence. The callback is a function from its own state and what it is shown. */
module Walks {
  import opened Words
  import opened Errors
  import opened Merkle
  import opened Subtree
  import Shape
  import Formula

  datatype WalkDirection = Left | Right | Both | Terminate

  /** What the callback is shown: the revision, a node with its hash, and the payload of a leaf. */
  datatype Visit = Visit(revision: nat, i: nat, j: nat, hash: Hash, value: Option<Bytes>)

  function VisitOf(h: Hashing, xs: seq<Bytes>, a: Shape.Addr): Visit
    requires 0 < a.i <= |xs|
  {
    Visit(|xs|, a.i, a.j, NodeHash(h, xs, a.i, a.j), if a.j == 0 then Some(xs[a.i - 1]) else None)
  }

  /** The callback's state after a walk from b_{i,j}, the right half before the left. */
  function Walk<S>(h: Hashing, xs: seq<Bytes>, i: nat, j: nat, s: S, f: (S, Visit) -> (S, WalkDirection)): S
    requires Shape.IsNode(i, j) && i <= |xs|
    decreases j
  {
    var (t, dir) := f(s, VisitOf(h, xs, Shape.Addr(i, j)));
    if j == 0 || dir == Terminate then t else
      Shape.NodeSplit(i, j);
      var l, r := Shape.LeftOf(i, j), Shape.RightOf(i, j);
      var u := if dir == Right || dir == Both then Walk(h, xs, r.i, r.j, t, f) else t;
      if dir == Left || dir == Both then Walk(h, xs, l.i, l.j, u, f) else u
  }

  /** A walk of the whole tree; there is nothing to see in an empty one. */
  function WalkTree<S>(h: Hashing, xs: seq<Bytes>, s: S, f: (S, Visit) -> (S, WalkDirection)): S {
    if xs == [] then s else
      Shape.RootIsNode(|xs|);
      Walk(h, xs, |xs|, Shape.Height(|xs|), s, f)
  }

  // ----- everywhere

  function Collect(s: seq<Visit>, v: Visit): (seq<Visit>, WalkDirection) {
    (s + [v], Both)
  }

  function VisitsOf(h: Hashing, xs: seq<Bytes>, s: seq<Shape.Addr>): seq<Visit>
    requires forall k :: 0 <= k < |s| ==> 0 < s[k].i <= |xs|
  {
    seq(|s|, k requires 0 <= k < |s| => VisitOf(h, xs, s[k]))
  }

  lemma NodesWithin(i: nat, j: nat)
    requires Shape.IsNode(i, j)
    ensures forall k :: 0 <= k < |Nodes(i, j)| ==> 0 < Nodes(i, j)[k].i <= i
  {
    hide Shape.IsNode, Shape.IsPerfect, Nodes;
    NodesAreTheSubtree(i, j);
    forall k | 0 <= k < |Nodes(i, j)|
      ensures 0 < Nodes(i, j)[k].i <= i
    {
      assert Nodes(i, j)[k] in Nodes(i, j);
    }
  }

  lemma {:induction false} WalkEverywhere(h: Hashing, xs: seq<Bytes>, i: nat, j: nat, s: seq<Visit>)
    requires Shape.IsNode(i, j) && i <= |xs|
    ensures forall k :: 0 <= k < |Nodes(i, j)| ==> 0 < Nodes(i, j)[k].i <= |xs|
    ensures Walk(h, xs, i, j, s, Collect) == s + VisitsOf(h, xs, Nodes(i, j))
    decreases j
  {
    hide Low, Pow2, BitLen, Shape.IsNode, VisitOf, Shape.LeftOf, Shape.RightOf;
    NodesWithin(i, j);
    var a := Shape.Addr(i, j);
    if j == 0 {
      assert VisitsOf(h, xs, [a]) == [VisitOf(h, xs, a)];
    } else {
      Shape.NodeSplit(i, j);
      var l, r := Shape.LeftOf(i, j), Shape.RightOf(i, j);
      var t := s + [VisitOf(h, xs, a)];
      WalkEverywhere(h, xs, r.i, r.j, t);
      var u := t + VisitsOf(h, xs, Nodes(r.i, r.j));
      WalkEverywhere(h, xs, l.i, l.j, u);
      assert u + VisitsOf(h, xs, Nodes(l.i, l.j)) == s + VisitsOf(h, xs, Nodes(i, j));
    }
  }

  /** Going both ways everywhere shows every node of T_n, each with its own hash, once: 2n - 1 visits, by
      falling index, and by falling height among the nodes of one generation. */
  lemma WalkVisitsAll(h: Hashing, xs: seq<Bytes>)
    requires xs != []
    ensures var ns, vs := TreeNodes(|xs|), WalkTree(h, xs, [], Collect);
      && |vs| == |ns| == 2 * |xs| - 1
      && (forall k :: 0 <= k < |ns| ==>
            && 0 < ns[k].i <= |xs|
            && vs[k].revision == |xs|
            && vs[k].i == ns[k].i && vs[k].j == ns[k].j
            && vs[k].hash == NodeHash(h, xs, ns[k].i, ns[k].j)
            && vs[k].value == if ns[k].j == 0 then Some(xs[ns[k].i - 1]) else None)
      && (forall a :: a in ns <==> Shape.IsNode(a.i, a.j) && a.i <= |xs| && (a.i == |xs| || Shape.IsPerfect(a)))
      && (forall k, l :: 0 <= k < l < |ns| ==> ns[k].i > ns[l].i || (ns[k].i == ns[l].i && ns[k].j > ns[l].j))
  {
    hide Nodes, Walk, InSubtree, Shape.IsNode, Shape.IsPerfect, NodeHash;
    Shape.RootIsNode(|xs|);
    WalkEverywhere(h, xs, |xs|, Shape.Height(|xs|), []);
    TreeNodesAre(|xs|);
    assert [] + VisitsOf(h, xs, TreeNodes(|xs|)) == VisitsOf(h, xs, TreeNodes(|xs|));
  }

  // ----- one way only

  /** Keeps what it is shown, and always gives the same direction. */
  function Onward(dir: WalkDirection): (seq<Visit>, Visit) -> (seq<Visit>, WalkDirection) {
    (s: seq<Visit>, v: Visit) => (s + [v], dir)
  }

  /** Always left: one node of every height from the top down, all with the same first leaf, which is the
      last of them. */
  lemma {:induction false} WalkLeft(h: Hashing, xs: seq<Bytes>, i: nat, j: nat, s: seq<Visit>)
    requires Shape.IsNode(i, j) && i <= |xs|
    ensures var vs := Walk(h, xs, i, j, s, Onward(Left));
      && |vs| == |s| + j + 1 && vs[..|s|] == s
      && (forall k :: |s| <= k < |vs| ==>
            && vs[k].j == j - (k - |s|) && vs[k].i <= i && Shape.IsNode(vs[k].i, vs[k].j)
            && Shape.Base(vs[k].i, vs[k].j) == Shape.Base(i, j))
      && vs[|vs| - 1].i == Shape.Base(i, j) + 1
    decreases j
  {
    hide Low, Pow2, BitLen, Shape.IsNode, Shape.Base, NodeHash;
    var t := s + [VisitOf(h, xs, Shape.Addr(i, j))];
    if j == 0 {
      Shape.LeafIsNode(i);
    } else {
      Shape.NodeSplit(i, j);
      var l := Shape.LeftOf(i, j);
      WalkLeft(h, xs, l.i, l.j, t);
      var vs := Walk(h, xs, l.i, l.j, t, Onward(Left));
      assert vs[|s|] == vs[..|t|][|s|] == t[|s|];
      assert vs[..|s|] == vs[..|t|][..|s|] == s;
    }
  }

  /** Always right: only nodes of this generation, by falling height, down to its leaf. */
  lemma {:induction false} WalkRight(h: Hashing, xs: seq<Bytes>, i: nat, j: nat, s: seq<Visit>)
    requires Shape.IsNode(i, j) && i <= |xs|
    ensures var vs := Walk(h, xs, i, j, s, Onward(Right));
      && |vs| > |s| && vs[..|s|] == s && vs[|s|].j == j && vs[|vs| - 1].j == 0
      && (forall k :: |s| <= k < |vs| ==> vs[k].i == i && Shape.IsNode(i, vs[k].j))
      && (forall k :: |s| < k < |vs| ==> vs[k].j < vs[k - 1].j)
    decreases j
  {
    hide Low, Pow2, BitLen, Shape.IsNode, Shape.Base, NodeHash;
    if j > 0 {
      Shape.NodeSplit(i, j);
      Shape.RightIsLower(i, j);
      var r := Shape.RightOf(i, j);
      var t := s + [VisitOf(h, xs, Shape.Addr(i, j))];
      WalkRight(h, xs, r.i, r.j, t);
      var vs := Walk(h, xs, r.i, r.j, t, Onward(Right));
      assert vs[|s|] == vs[..|t|][|s|] == t[|s|];
      assert vs[..|s|] == vs[..|t|][..|s|] == s;
    }
  }

  /** Told to stop, the walk shows nothing more. */
  lemma WalkStops(h: Hashing, xs: seq<Bytes>, i: nat, j: nat)
    requires Shape.IsNode(i, j) && i <= |xs|
    ensures var vs := Walk(h, xs, i, j, [], Onward(Terminate)); |vs| == 1 && vs[0].i == i && vs[0].j == j
  {
  }

  // ----- to one value

  /** Whether leaf i is in the right half below a node shown on the way to it. */
  predicate LeadsRight(i: u64, v: Visit)
    requires v.i < TWO64 && v.j > 0 && Shape.IsNode(v.i, v.j)
    ensures LeadsRight(i, v) <==> Shape.LeftOf(v.i, v.j).i < i <= v.i
  {
    hide Low, Pow2, BitLen, Shape.IsNode, Shape.LeftOf, Shape.RightOf;
    hide Formula.SubnodesOf, Formula.Contains, Formula.IsValid;
    Shape.NodeSplit(v.i, v.j);
    var (_, right) := Formula.SubnodesOf(v.i, v.j);
    Formula.HeightInWord(right.i, right.j);
    Formula.Contains(right.i, right.j, i)
  }

  /** The callback of get: down to leaf i, whose value it keeps. */
  function GetStep(i: u64): (Option<Bytes>, Visit) -> (Option<Bytes>, WalkDirection) {
    (s: Option<Bytes>, v: Visit) =>
      if v.i == i then
        if v.j == 0 then (v.value, Terminate) else (s, Right)
      else if v.i < TWO64 && v.j > 0 && Shape.IsNode(v.i, v.j) then
        (s, if LeadsRight(i, v) then Right else Left)
      else (s, Terminate) // nothing else is ever shown
  }

  /** Following the callback of get finds the value of the leaf, if it is below. */
  lemma {:induction false} WalkGets(h: Hashing, xs: seq<Bytes>, i: nat, j: nat, k: nat, s: Option<Bytes>)
    requires Shape.IsNode(i, j) && i <= |xs| < TWO64 && Shape.Base(i, j) < k <= i
    ensures Walk(h, xs, i, j, s, GetStep(k)) == Some(xs[k - 1])
    decreases j
  {
    hide Low, Pow2, BitLen, Shape.IsNode, NodeHash, Shape.Base, LeadsRight;
    if j > 0 {
      Shape.NodeSplit(i, j);
      var l, r := Shape.LeftOf(i, j), Shape.RightOf(i, j);
      if k > l.i {
        WalkGets(h, xs, r.i, r.j, k, s);
      } else {
        WalkGets(h, xs, l.i, l.j, k, s);
      }
    } else {
      Shape.LeafIsNode(i);
    }
  }

  /** A callback that also counts how often it is called. */
  function Tally<S>(f: (S, Visit) -> (S, WalkDirection)): ((S, int), Visit) -> ((S, int), WalkDirection) {
    (s: (S, int), v: Visit) => var (t, dir) := f(s.0, v); ((t, s.1 + 1), dir)
  }

  /** The callback of get is shown nothing but the path: no more than one node of every height. */
  lemma {:induction false} WalkGetsAlong(h: Hashing, xs: seq<Bytes>, i: nat, j: nat, k: nat, s: Option<Bytes>, n: int)
    requires Shape.IsNode(i, j) && i <= |xs| < TWO64 && Shape.Base(i, j) < k <= i
    ensures var (value, count) := Walk(h, xs, i, j, (s, n), Tally(GetStep(k)));
      value == Some(xs[k - 1]) && n < count <= n + j + 1
    decreases j
  {
    hide Low, Pow2, BitLen, Shape.IsNode, NodeHash, Shape.Base, LeadsRight;
    if j > 0 {
      Shape.NodeSplit(i, j);
      var l, r := Shape.LeftOf(i, j), Shape.RightOf(i, j);
      if k > l.i {
        WalkGetsAlong(h, xs, r.i, r.j, k, s, n + 1);
      } else {
        WalkGetsAlong(h, xs, l.i, l.j, k, s, n + 1);
      }
    } else {
      Shape.LeafIsNode(i);
    }
  }

  // ----- to one leaf and everything beside the path

  datatype Sampled = Sampled(witnesses: map<Shape.Addr, Hash>, leaf: Option<Bytes>)

  /** The callback of get_sample: keeps the hash of every node beside the path, and the value at its end. */
  function SampleStep(i: u64): (Sampled, Visit) -> (Sampled, WalkDirection) {
    (s: Sampled, v: Visit) =>
      if 0 < v.i < TWO64 && v.j <= 64 then
        if !Formula.Contains(v.i, v.j, i) then
          (Sampled(s.witnesses[Shape.Addr(v.i, v.j) := v.hash], s.leaf), Terminate)
        else if v.j == 0 then (Sampled(s.witnesses, v.value), Terminate)
        else (s, Both)
      else (s, Terminate) // nothing else is ever shown
  }

  lemma SampleStepIs(h: Hashing, xs: seq<Bytes>, a: Shape.Addr, k: u64, s: Sampled)
    requires Shape.IsNode(a.i, a.j) && 0 < a.i <= |xs| < TWO64
    ensures SampleStep(k)(s, VisitOf(h, xs, a)) ==
      if !Shape.Covers(a, k) then (Sampled(s.witnesses[a := NodeHash(h, xs, a.i, a.j)], s.leaf), Terminate)
      else if a.j == 0 then (Sampled(s.witnesses, Some(xs[a.i - 1])), Terminate)
      else (s, Both)
  {
    hide Low, Pow2, BitLen, Shape.IsNode, NodeHash, Shape.Base;
    Formula.HeightInWord(a.i, a.j);
    var v := VisitOf(h, xs, a);
    assert Shape.Addr(v.i, v.j) == a;
    assert Formula.Contains(v.i, v.j, k) <==> Shape.Covers(a, k);
  }

  /** The hashes of the given nodes. */
  function HashesOf(h: Hashing, xs: seq<Bytes>, s: seq<Shape.Addr>): map<Shape.Addr, Hash> {
    map a | a in s && 0 < a.i <= |xs| :: NodeHash(h, xs, a.i, a.j)
  }

  lemma {:induction false} WalkSamples(h: Hashing, xs: seq<Bytes>, i: nat, j: nat, k: nat, s: Sampled)
    requires Shape.IsNode(i, j) && i <= |xs| < TWO64 && Shape.Base(i, j) < k <= i
    ensures InSubtree(i, j, Shape.Addr(k, 0))
    ensures Walk(h, xs, i, j, s, SampleStep(k))
         == Sampled(s.witnesses + HashesOf(h, xs, Siblings(i, j, Shape.Addr(k, 0))), Some(xs[k - 1]))
    decreases j
  {
    hide Low, Pow2, BitLen, Shape.IsNode, NodeHash, Shape.Base, SampleStep, InSubtree, HashesOf, VisitOf;
    LeafInSubtree(i, j, k);
    var a := Shape.Addr(k, 0);
    SampleStepIs(h, xs, Shape.Addr(i, j), k, s);
    if j > 0 {
      Shape.NodeSplit(i, j);
      Descend(i, j, a);
      var l, r := Shape.LeftOf(i, j), Shape.RightOf(i, j);
      if k > l.i {
        WalkSamples(h, xs, r.i, r.j, k, s);
        var t := Sampled(s.witnesses + HashesOf(h, xs, Siblings(r.i, r.j, a)), Some(xs[k - 1]));
        WalkBeside(h, xs, l.i, l.j, k, t);
        OneMoreHash(h, xs, s.witnesses, l, Siblings(r.i, r.j, a));
      } else {
        WalkBeside(h, xs, r.i, r.j, k, s);
        var t := Sampled(s.witnesses[r := NodeHash(h, xs, r.i, r.j)], s.leaf);
        WalkSamples(h, xs, l.i, l.j, k, t);
        OneMoreHash(h, xs, s.witnesses, r, Siblings(l.i, l.j, a));
      }
    } else {
      Shape.LeafIsNode(i);
      NoHashes(h, xs, s.witnesses);
    }
  }

  /** A subtree that does not contain the leaf is seen only as its root. */
  lemma WalkBeside(h: Hashing, xs: seq<Bytes>, i: nat, j: nat, k: nat, s: Sampled)
    requires Shape.IsNode(i, j) && i <= |xs| < TWO64 && k < TWO64 && !(Shape.Base(i, j) < k <= i)
    ensures Walk(h, xs, i, j, s, SampleStep(k))
         == Sampled(s.witnesses[Shape.Addr(i, j) := NodeHash(h, xs, i, j)], s.leaf)
  {
    hide Low, Pow2, BitLen, Shape.IsNode, NodeHash, Shape.Base, SampleStep, VisitOf;
    SampleStepIs(h, xs, Shape.Addr(i, j), k, s);
  }

  /** The callback of get_sample is shown the path and the nodes beside it, and nothing below those. */
  lemma {:induction false} WalkSamplesAlong(h: Hashing, xs: seq<Bytes>, i: nat, j: nat, k: nat, s: Sampled, n: int)
    requires Shape.IsNode(i, j) && i <= |xs| < TWO64 && Shape.Base(i, j) < k <= i
    ensures InSubtree(i, j, Shape.Addr(k, 0))
    ensures Walk(h, xs, i, j, (s, n), Tally(SampleStep(k))).1 == n + 1 + 2 * |Siblings(i, j, Shape.Addr(k, 0))|
    decreases j
  {
    hide Low, Pow2, BitLen, Shape.IsNode, NodeHash, Shape.Base, SampleStep, InSubtree, VisitOf;
    LeafInSubtree(i, j, k);
    var a, f := Shape.Addr(k, 0), Tally(SampleStep(k));
    SampleStepIs(h, xs, Shape.Addr(i, j), k, s);
    if j > 0 {
      Shape.NodeSplit(i, j);
      Descend(i, j, a);
      var l, r := Shape.LeftOf(i, j), Shape.RightOf(i, j);
      if k > l.i {
        WalkSamplesAlong(h, xs, r.i, r.j, k, s, n + 1);
        var (t, m) := Walk(h, xs, r.i, r.j, (s, n + 1), f);
        SampleStepIs(h, xs, l, k, t);
      } else {
        SampleStepIs(h, xs, r, k, s);
        var (t, m) := Walk(h, xs, r.i, r.j, (s, n + 1), f);
        WalkSamplesAlong(h, xs, l.i, l.j, k, t, m);
      }
    } else {
      Shape.LeafIsNode(i);
    }
  }

  lemma NoHashes(h: Hashing, xs: seq<Bytes>, w: map<Shape.Addr, Hash>)
    ensures w + HashesOf(h, xs, []) == w
  {
  }

  lemma OneMoreHash(h: Hashing, xs: seq<Bytes>, w: map<Shape.Addr, Hash>, a: Shape.Addr, s: seq<Shape.Addr>)
    requires 0 < a.i <= |xs|
    ensures w[a := NodeHash(h, xs, a.i, a.j)] + HashesOf(h, xs, s) == w + HashesOf(h, xs, [a] + s)
    ensures (w + HashesOf(h, xs, s))[a := NodeHash(h, xs, a.i, a.j)] == w + HashesOf(h, xs, [a] + s)
  {
    hide NodeHash;
  }
}
