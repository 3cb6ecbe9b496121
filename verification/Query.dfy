/** Queries on a snapshot (src/lib.rs, Query): a cursor of its own over the storage and the cache of one
    revision. Entries the cache does not hold are read from the storage; what was appended after the
    snapshot was taken does not matter. */
module Querying {
  import opened Words
  import opened Errors
  import opened Merkle
  import opened Entries
  import opened Device
  import opened Storage
  import opened Journal
  import opened Hops
  import opened Caching
  import opened Walks
  import opened Sampling
  import Distance
  import Shape
  import Formula

  class Query {
    const hashing: Hashing
    const cursor: MemoryDevice
    const cache: Cache
    /** The payloads of the snapshot. */
    ghost const payloads: seq<Bytes>

    /** The cache is that of the snapshot, and the storage still starts with its entries. */
    ghost predicate Valid()
      reads this, cursor, cursor.buffer
    {
      Holds(hashing, payloads, cursor.buffer.bytes) && cache == CacheOf(hashing, payloads, cache.level)
    }

    constructor (hashing: Hashing, cursor: MemoryDevice, cache: Cache, ghost payloads: seq<Bytes>)
      requires Holds(hashing, payloads, cursor.buffer.bytes) && cache == CacheOf(hashing, payloads, cache.level)
      ensures this.hashing == hashing && this.cursor == cursor && this.cache == cache && this.payloads == payloads
      ensures Valid()
    {
      this.hashing := hashing;
      this.cursor := cursor;
      this.cache := cache;
      this.payloads := payloads;
    }

    method Revision() returns (n: nat)
      requires Valid()
      ensures n == |payloads|
    {
      n := cache.Revision();
    }

    // ----- reading an entry

    /** The entry at an address held by another: from the cache if it is there, else from the storage. */
    method Fetch(left: Address) returns (r: Result<Entry>)
      requires Valid() && 0 < left.i <= |payloads| && left.position == Position(payloads, left.i)
      modifies cursor`position, cursor`readCount
      ensures r == Ok(EntryOf(hashing, payloads, left.i))
      ensures cursor.readCount
           == old(cursor.readCount) + if HopsTo(|payloads|, left.i) <= cache.level then 0 else 1
    {
      hide EntryOf, Holds, RootMetasOf, Reach, HopsTo, ReadChecked;
      ReachIsHops(|payloads|, cache.level, left.i);
      CheckedEntry(hashing, payloads, left.i, cursor.buffer.bytes);
      if left.i in cache.entries {
        return Ok(cache.entries[left.i]);
      }
      r := ReadEntryChecked(hashing, cursor, left.position, left.i);
    }

    /** From the entry of p, already hops away from the newest, on to entry i. */
    method ReadEntryFrom(entry: Entry, i: u64, ghost p: nat, ghost hops: nat) returns (r: Result<Option<Entry>>)
      requires Valid() && 0 < p <= |payloads| && entry == EntryOf(hashing, payloads, p)
      requires i == 0 || i > |payloads| ==> p == |payloads|
      requires 0 < i <= |payloads| ==>
        i <= p && HopsTo(|payloads|, p) == hops && HopsTo(|payloads|, i) == hops + HopsTo(p, i)
      modifies cursor`position, cursor`readCount
      ensures r == Ok(if 0 < i <= |payloads| then Some(EntryOf(hashing, payloads, i)) else None)
      ensures cursor.readCount == old(cursor.readCount) + if 0 < i <= |payloads|
        then Beyond(HopsTo(|payloads|, i), cache.level) - Beyond(hops, cache.level) else 0
      decreases p
    {
      hide EntryOf, Holds, CacheOf, HopsTo, Shape.IsNode, Shape.IsPerfect, Low, Pow2, BitLen, Shape.Base, Position;
      EntryAddress(hashing, payloads, p);
      HopsToSelf(p);
      if entry.Index() == i {
        return Ok(Some(entry));
      }
      ghost var s := Shape.Inodes(p);
      FitsInWordsOf(hashing, payloads, cursor.buffer.bytes);
      LeftsPositive(hashing, payloads, p);
      for t := 0 to |entry.inodes|
        invariant forall l :: 0 <= l < t ==> !Shape.Covers(s[l].left, i)
        invariant cursor.readCount == old(cursor.readCount)
      {
        var inode := entry.inodes[t];
        LeftAddress(hashing, payloads, p, t);
        if Formula.Contains(inode.left.i, inode.left.j, i) {
          NextHopIs(p, i, t);
          HopsOn(|payloads|, p, i, hops);
          var next := Fetch(inode.left);
          r := ReadEntryFrom(next.value, i, inode.left.i, hops + 1);
          return;
        }
      }
      if 0 < i <= |payloads| {
        SomeLeftCovers(p, i);
        assert false;
      }
      return Ok(None);
    }

    /** Any index may be asked for; those outside the revision have no entry. With the entries within
        level hops in the cache, every hop beyond them costs one read from the storage. */
    method ReadEntry(i: u64) returns (r: Result<Option<Entry>>)
      requires Valid()
      modifies cursor`position, cursor`readCount
      ensures r == Ok(if 0 < i <= |payloads| then Some(EntryOf(hashing, payloads, i)) else None)
      ensures |payloads| < TWO64
      ensures match Distance.EntryAccessDistance(i, |payloads|)
        case Some(d) => d >= 0 && cursor.readCount == old(cursor.readCount) + Beyond(d, cache.level)
        case None => cursor.readCount == old(cursor.readCount)
    {
      hide EntryOf, Holds, HopsTo, Reach, Distance.EntryAccessDistance;
      FitsInWordsOf(hashing, payloads, cursor.buffer.bytes);
      Distance.DistanceIsHops(i, |payloads|);
      NewestIsCached(hashing, payloads, cache.level);
      if cache.Revision() in cache.entries {
        HopsToSelf(|payloads|);
        r := ReadEntryFrom(cache.entries[cache.Revision()], i, |payloads|, 0);
      } else {
        r := Ok(None);
      }
    }

    // ----- walking

    method WalkDown<S>(s: S, f: (S, Visit) -> (S, WalkDirection)) returns (r: Result<S>)
      requires Valid()
      modifies cursor`position, cursor`readCount
      ensures r == Ok(WalkTree(hashing, payloads, s, f))
    {
      hide EntryOf, Holds, Walk, Reach;
      NewestIsCached(hashing, payloads, cache.level);
      if cache.Revision() in cache.entries {
        var last := cache.entries[cache.Revision()];
        RootOnSpine(hashing, payloads, |payloads|);
        r := WalkFrom(|last.inodes|, last, s, f);
      } else {
        r := Ok(s);
      }
    }

    /** From the inode before position at of an entry, or its leaf when at is 0. */
    method WalkFrom<S>(at: nat, entry: Entry, s: S, f: (S, Visit) -> (S, WalkDirection)) returns (r: Result<S>)
      requires Valid() && 0 < entry.Index() <= |payloads| && entry == EntryOf(hashing, payloads, entry.Index())
      requires at <= |entry.inodes|
      modifies cursor`position, cursor`readCount
      ensures |Shape.Inodes(entry.Index())| == |entry.inodes|
      ensures var i, j := entry.Index(), Shape.HeightBelow(Shape.Inodes(entry.Index()), at);
        Shape.IsNode(i, j) && r == Ok(Walk(hashing, payloads, i, j, s, f))
      decreases Shape.HeightBelow(Shape.Inodes(entry.Index()), at)
    {
      hide EntryOf, Holds, CacheOf, Shape.IsNode, Shape.IsPerfect, Shape.Base, Shape.Inodes;
      hide Low, Pow2, BitLen, NodeHash, Position;
      var i := entry.Index();
      InodeOnSpine(hashing, payloads, i, at);
      var visit := if at == 0
        then Visit(cache.Revision(), i, 0, entry.enode.meta.hash, Some(entry.enode.payload))
        else Visit(cache.Revision(), i, entry.inodes[at - 1].meta.address.j, entry.inodes[at - 1].meta.hash, None);
      RevisionIs(hashing, payloads, cache.level);
      var (t, dir) := f(s, visit);
      if at == 0 || dir == Terminate {
        return Ok(t);
      }
      if dir == WalkDirection.Right || dir == Both {
        InodeOnSpine(hashing, payloads, i, at - 1);
        var right := WalkFrom(at - 1, entry, t, f);
        t := right.value;
      }
      if dir == WalkDirection.Left || dir == Both {
        var current := entry.inodes[at - 1];
        var left := Fetch(current.left);
        LeftOnSpine(hashing, payloads, current.left.i, current.left.j);
        // the left node is in the entry its address leads to: there is no inconsistency to report
        var leftAt := if current.left.j == 0 then 0 else left.value.Find(current.left.j, 0) + 1;
        var walked := WalkFrom(leftAt, left.value, t, f);
        t := walked.value;
      }
      r := Ok(t);
    }

    // ----- values and samples

    method Get(i: u64) returns (r: Result<Option<Bytes>>)
      requires Valid()
      modifies cursor`position, cursor`readCount
      ensures r == Ok(if 0 < i <= |payloads| then Some(payloads[i - 1]) else None)
    {
      hide Holds, Walk, GetStep;
      FitsInWordsOf(hashing, payloads, cursor.buffer.bytes);
      RevisionIs(hashing, payloads, cache.level);
      if i == 0 || i > cache.Revision() {
        return Ok(None);
      }
      Shape.RootIsNode(|payloads|);
      WalkGets(hashing, payloads, |payloads|, Shape.Height(|payloads|), i, None);
      r := WalkDown(None, GetStep(i));
    }

    method GetSample(i: u64) returns (r: Result<Option<StratumSample>>)
      requires Valid()
      modifies cursor`position, cursor`readCount
      ensures r == Ok(if 0 < i <= |payloads| then Some(SampleOf(hashing, payloads, i)) else None)
    {
      hide Holds, Walk, SampleStep, HashesOf;
      FitsInWordsOf(hashing, payloads, cursor.buffer.bytes);
      RevisionIs(hashing, payloads, cache.level);
      ghost var start := Sampled(map[], None);
      if payloads != [] {
        Shape.RootIsNode(|payloads|);
        if 0 < i <= |payloads| {
          WalkSamples(hashing, payloads, |payloads|, Shape.Height(|payloads|), i, start);
          SampleIs(hashing, payloads, i);
        } else {
          WalkBeside(hashing, payloads, |payloads|, Shape.Height(|payloads|), i, start);
        }
      }
      var walked := WalkDown(Sampled(map[], None), SampleStep(i));
      var sampled := walked.value;
      if sampled.leaf == None {
        return Ok(None);
      }
      r := Ok(Some(StratumSample(cache.Revision(), Value(i, sampled.leaf.value), sampled.witnesses)));
    }

    // ----- scanning

    /** The entries from i0 to i1, in either order of the bounds, cut to the revision. */
    method ScanRange<A(!new)>(i0: u64, i1: u64, init: A, f: (A, Entry) -> Option<A>) returns (r: Result<(A, nat)>)
      requires Valid()
      modifies cursor`position, cursor`readCount
      ensures var (lo, hi) := Bounds(|payloads|, i0, i1);
        r == if lo > hi then Ok((init, 0))
             else match Fold(LogOf(hashing, payloads)[lo - 1..hi], init, f)
               case None => Err(Callback)
               case Some(b) => Ok((b, hi - lo + 1))
      ensures var (lo, hi) := Bounds(|payloads|, i0, i1);
        r == Err(Callback) <==> lo <= hi && Refused(LogOf(hashing, payloads)[lo - 1..hi], init, f)
    {
      hide EntryOf, LogBytes, ScanData, Fold, CacheOf, Position, HopsTo, AllStorable, ValidLog, Refused;
      FitsInWordsOf(hashing, payloads, cursor.buffer.bytes);
      RevisionIs(hashing, payloads, cache.level);
      var (lo, hi) := Bounds(cache.Revision(), i0, i1);
      if lo > hi {
        return Ok((init, 0));
      }
      var found := ReadEntry(lo);
      EntryAddress(hashing, payloads, lo);
      var entry := found.value.value;
      var position := entry.enode.meta.address.position;
      var count := hi - lo + 1;
      LogIsValid(hashing, payloads);
      ScanLogged(hashing, LogOf(hashing, payloads), lo - 1, count, cursor.buffer.bytes, init, f);
      FoldRefused(LogOf(hashing, payloads)[lo - 1..hi], init, f);
      r := Scan(hashing, cursor, position, count, init, f);
    }
  }

  /** The bounds in order, and within 1..n. */
  function Bounds(n: nat, i0: u64, i1: u64): (nat, nat) {
    var (a, b) := if i0 <= i1 then (i0, i1) else (i1, i0);
    (if a < 1 then 1 else a, if b > n then n else b)
  }

  /** Index k is scanned exactly if the revision has it and it lies between the bounds, whichever of them
      is the lower; the entries scanned begin and end with the first and the last such index. */
  lemma BoundsAre(n: nat, i0: u64, i1: u64, k: nat)
    ensures var (lo, hi) := Bounds(n, i0, i1);
      && (lo <= k <= hi <==> 0 < k <= n && (i0 <= k <= i1 || i1 <= k <= i0))
      && (lo <= hi ==> 0 < lo && hi <= n)
  {
  }

  /** The hops beyond those the cache covers. */
  function Beyond(hops: nat, level: nat): nat {
    if hops <= level then 0 else hops - level
  }

  lemma FitsInWordsOf(h: Hashing, xs: seq<Bytes>, bytes: Bytes)
    requires Holds(h, xs, bytes)
    ensures Fits(xs) && |xs| < TWO64 - 1
  {
    hide Position, LogBytes;
    FitsInWords(xs, 1);
  }

  /** One hop on, the distance from the newest entry is one more. */
  lemma HopsOn(n: nat, p: nat, i: nat, hops: nat)
    requires 0 < i < p <= n && HopsTo(n, p) == hops && HopsTo(n, i) == hops + HopsTo(p, i)
    ensures var q := NextHop(p, i).i;
      && i <= q < p && HopsTo(n, q) == hops + 1 && HopsTo(n, i) == hops + 1 + HopsTo(q, i)
  {
    hide Shape.IsNode, Shape.IsPerfect, Low, Pow2, BitLen, Shape.Base;
    var q := NextHop(p, i).i;
    HopsTriangle(n, p, q);
    HopsTriangle(n, q, i);
    LeftsBelow(p);
    SomeLeftCovers(p, i);
    var t := FirstCovering(Shape.Inodes(p), i, 0);
    NoShortcut(p, t, q);
    HopsToSelf(q);
  }

  lemma RevisionIs(h: Hashing, xs: seq<Bytes>, level: nat)
    ensures CacheOf(h, xs, level).Revision() == |xs|
  {
  }

  lemma NewestIsCached(h: Hashing, xs: seq<Bytes>, level: nat)
    ensures var c := CacheOf(h, xs, level);
      && c.Revision() == |xs|
      && (c.Revision() in c.entries <==> xs != [])
      && (xs != [] ==> c.entries[|xs|] == EntryOf(h, xs, |xs|) && c.entries[|xs|].Index() == |xs|)
  {
    hide EntryOf, RootMetasOf;
    if xs != [] {
      EntryAddress(h, xs, |xs|);
      ReachHas(|xs|, level);
    }
  }

  lemma LeftsPositive(h: Hashing, xs: seq<Bytes>, p: nat)
    requires 0 < p <= |xs|
    ensures |EntryOf(h, xs, p).inodes| == |Shape.Inodes(p)|
    ensures forall l :: 0 <= l < |Shape.Inodes(p)| ==> Shape.Inodes(p)[l].left.i > 0
  {
    hide Position, NodeHash, Shape.Inodes;
    InodesWithin(p);
  }

  lemma LeftAddress(h: Hashing, xs: seq<Bytes>, p: nat, t: nat)
    requires Fits(xs) && 0 < p <= |xs| && t < |EntryOf(h, xs, p).inodes| && t < |Shape.Inodes(p)|
    ensures var a := Shape.Inodes(p)[t].left;
      && 0 < a.i < p && a.i < TWO64 && a.j < 64
      && EntryOf(h, xs, p).inodes[t].left == AddressOf(xs, a)
  {
    hide NodeHash, Shape.Inodes, Position;
    FitsInWords(xs, p);
    InodesWithin(p);
    InodeHeights(p);
    assert EntryOf(h, xs, p).inodes[t] == INodeOf(h, xs, Shape.Inodes(p)[t]);
  }

  lemma RootOnSpine(h: Hashing, xs: seq<Bytes>, i: nat)
    requires 0 < i <= |xs|
    ensures EntryOf(h, xs, i).Index() == i && |EntryOf(h, xs, i).inodes| == |Shape.Inodes(i)|
    ensures Shape.HeightBelow(Shape.Inodes(i), |Shape.Inodes(i)|) == Shape.Height(i) && Shape.IsNode(i, Shape.Height(i))
  {
    hide Position, NodeHash, Low, Pow2, Shape.IsNode, Shape.Spine;
    Shape.RootIsNode(i);
    Shape.SpineNodes(i, Shape.Height(i));
    SpineOfLeaf(i);
  }

  lemma SpineOfLeaf(i: nat)
    requires i > 0
    ensures Shape.Spine(i, 0) == []
  {
  }

  /** Position at of an entry stands for the node of its generation at that place on the spine. */
  lemma InodeOnSpine(h: Hashing, xs: seq<Bytes>, i: nat, at: nat)
    requires 0 < i <= |xs| && at <= |EntryOf(h, xs, i).inodes|
    ensures |Shape.Inodes(i)| == |EntryOf(h, xs, i).inodes|
    ensures var e, s := EntryOf(h, xs, i), Shape.Inodes(i);
      var j := Shape.HeightBelow(s, at);
      && Shape.IsNode(i, j) && (j == 0 <==> at == 0)
      && (at == 0 ==> e.enode.meta.hash == NodeHash(h, xs, i, 0) && e.enode.payload == xs[i - 1])
      && (at > 0 ==>
            && e.inodes[at - 1].meta == MetaOf(h, xs, Shape.Addr(i, j))
            && 0 < Shape.LeftOf(i, j).i <= |xs| && Shape.LeftOf(i, j).j < j
            && Shape.IsNode(Shape.LeftOf(i, j).i, Shape.LeftOf(i, j).j)
            && e.inodes[at - 1].left == AddressOf(xs, Shape.LeftOf(i, j))
            && Shape.RightOf(i, j) == Shape.Addr(i, Shape.HeightBelow(s, at - 1))
            && Shape.HeightBelow(s, at - 1) < j)
  {
    hide Position, NodeHash, Low, Pow2, BitLen, Shape.IsNode, Shape.Spine, Shape.LeftOf, Shape.RightOf;
    Shape.RootIsNode(i);
    Shape.SpineNodes(i, Shape.Height(i));
    InodesWithin(i);
    Shape.LeafIsNode(i);
    if at > 0 {
      var d := Shape.Inodes(i)[at - 1];
      assert EntryOf(h, xs, i).inodes[at - 1] == INodeOf(h, xs, d);
      Shape.NodeSplit(i, d.node.j);
    }
  }

  /** The node of height j is found in the entry of i. */
  lemma LeftOnSpine(h: Hashing, xs: seq<Bytes>, i: nat, j: nat)
    requires 0 < i <= |xs| && Shape.IsNode(i, j)
    ensures var e := EntryOf(h, xs, i);
      var at := if j == 0 then 0 else e.Find(j, 0) + 1;
      e.Index() == i && at <= |e.inodes| == |Shape.Inodes(i)| && Shape.HeightBelow(Shape.Inodes(i), at) == j
  {
    hide Position, NodeHash, Low, Pow2, BitLen, Shape.IsNode, Shape.Inodes, Shape.LeftOf, Shape.RightOf;
    var e := EntryOf(h, xs, i);
    e.FindInRange(j, 0);
    InodesWithin(i);
    if j > 0 {
      var k := Shape.NodeIsInode(i, j);
      assert e.inodes[k] == INodeOf(h, xs, Shape.Inodes(i)[k]);
      var f := e.Find(j, 0);
      assert e.inodes[f] == INodeOf(h, xs, Shape.Inodes(i)[f]);
    }
  }
}
