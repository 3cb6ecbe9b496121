/** The key-value storage in memory (src/storage/memory.rs, MemKVS): a map from positions 1, 2, 3, ...
    to what was stored there, shared by a storage and its readers. */
module KeyValues {
  import opened Errors

  /** The cells hold exactly xs, at the positions from 1 on. */
  ghost predicate HoldsAll<S>(cells: map<nat, S>, xs: seq<S>) {
    && (forall p: nat :: p in cells <==> 0 < p <= |xs|)
    && (forall p: nat :: p in cells ==> cells[p] == xs[p - 1])
  }

  /** The number of cells tells the last position. */
  lemma {:induction false} CellCount<S>(cells: map<nat, S>, xs: seq<S>)
    requires HoldsAll(cells, xs)
    ensures |cells| == |xs|
    decreases |xs|
  {
    if xs == [] {
      assert cells == map[];
    } else {
      var n := |xs|;
      var fewer := cells - {n};
      CellCount(fewer, xs[..n - 1]);
      assert cells == fewer[n := xs[n - 1]];
    }
  }

  class Cells<S> {
    var kvs: map<nat, S>

    constructor ()
      ensures kvs == map[]
    {
      kvs := map[];
    }
  }

  class MemKvs<S> {
    const shared: Cells<S>
    ghost var contents: seq<S>

    ghost predicate Valid()
      reads this, shared
    {
      HoldsAll(shared.kvs, contents)
    }

    constructor ()
      ensures Valid() && contents == [] && fresh(shared)
    {
      shared := new Cells<S>();
      contents := [];
    }

    method Last() returns (last: Option<S>, next: nat)
      requires Valid()
      ensures next == |contents| + 1
      ensures last == if contents == [] then None else Some(contents[|contents| - 1])
    {
      CellCount(shared.kvs, contents);
      var n := |shared.kvs|;
      if n == 0 {
        return None, 1;
      }
      last := if n in shared.kvs then Some(shared.kvs[n]) else None;
      next := n + 1;
    }

    /** Stores an item at any position. At the next position of a dense storage that is one item more, at
        an earlier one it takes the place of another. */
    method Put(position: nat, data: S) returns (next: nat)
      modifies this, shared
      ensures shared.kvs == old(shared.kvs)[position := data] && next == |shared.kvs| + 1
      ensures old(Valid()) && 0 < position <= |old(contents)| + 1 ==> Valid() && next == |contents| + 1
      ensures old(Valid()) && position == |old(contents)| + 1 ==> contents == old(contents) + [data]
      ensures old(Valid()) && 0 < position <= |old(contents)| ==> contents == old(contents)[position - 1 := data]
    {
      ghost var valid := Valid();
      shared.kvs := shared.kvs[position := data];
      next := |shared.kvs| + 1;
      if valid && 0 < position <= |contents| + 1 {
        contents := if position <= |contents| then contents[position - 1 := data] else contents + [data];
        CellCount(shared.kvs, contents);
      }
    }

    /** Removes from the position on, for as long as there is something to remove. */
    method Truncate(position: nat) returns (cut: bool)
      requires Valid()
      modifies this, shared
      ensures Valid() && (cut <==> 0 < position <= |old(contents)|)
      ensures contents == if cut then old(contents)[..position - 1] else old(contents)
    {
      var p := position;
      while p in shared.kvs
        invariant contents == old(contents) && position <= p && (p == position || 0 < position <= p - 1 <= |contents|)
        invariant forall q: nat :: q in shared.kvs <==> 0 < q <= |contents| && !(position <= q < p)
        invariant forall q: nat :: q in shared.kvs ==> shared.kvs[q] == contents[q - 1]
        decreases |contents| + 1 - p
      {
        shared.kvs := shared.kvs - {p};
        p := p + 1;
      }
      cut := p != position;
      if cut {
        contents := contents[..position - 1];
      }
    }

    method Read(position: nat) returns (r: Result<S>)
      requires Valid()
      ensures r == if 0 < position <= |contents| then Ok(contents[position - 1]) else Err(NotFound)
    {
      r := if position in shared.kvs then Ok(shared.kvs[position]) else Err(NotFound);
    }

    /** Passes up to count items from a position on to the callback, and stops at the end. */
    method Scan<A(!new)>(position: nat, count: nat, init: A, f: (A, S) -> Option<A>) returns (r: Result<(A, nat)>)
      requires Valid()
      ensures var start := if 0 < position <= |contents| then position - 1 else |contents|;
        var end := if start + count <= |contents| then start + count else |contents|;
        && (r == match Fold(contents[start..end], init, f)
                 case None => Err(Callback)
                 case Some(a) => Ok((a, end - start)))
        && (r == Err(Callback) <==> Refused(contents[start..end], init, f))
    {
      hide Refused;
      ghost var start := if 0 < position <= |contents| then position - 1 else |contents|;
      ghost var end := if start + count <= |contents| then start + count else |contents|;
      FoldRefused(contents[start..end], init, f);
      var a, read := init, 0;
      while read < count && position + read in shared.kvs
        invariant read <= end - start && (position == 0 ==> read == 0)
        invariant Fold(contents[start..end], init, f) == Fold(contents[start + read..end], a, f)
        decreases count - read
      {
        var s := contents[start + read..end];
        match f(a, shared.kvs[position + read]) {
          case None =>
            return Err(Callback);
          case Some(b) =>
            a := b;
        }
        assert s[1..] == contents[start + read + 1..end];
        read := read + 1;
      }
      r := Ok((a, read));
    }
  }
}
