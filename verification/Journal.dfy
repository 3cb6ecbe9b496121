/** The log of a payload sequence: the entries append builds can all be stored and read back, and each
    stands at the position it records. */
module Journal {
  import opened Words
  import opened Errors
  import opened Merkle
  import opened Entries
  import opened Serialize
  import opened Checksum
  import opened Storage
  import Shape

  /** A byte vector holds fewer than 2^63 bytes. */
  const CAPACITY: nat := 0x7FFF_FFFF_FFFF_FFFF

  /** The payloads append accepts, in a log that fits into memory. */
  predicate Fits(xs: seq<Bytes>) {
    && (forall k :: 0 <= k < |xs| ==> |xs[k]| <= MAX_PAYLOAD_SIZE)
    && Position(xs, |xs| + 1) <= CAPACITY
  }

  /** Indices and positions of a log that fits are u64 values. */
  lemma FitsInWords(xs: seq<Bytes>, i: nat)
    requires Fits(xs) && 0 < i <= |xs| + 1
    ensures i < TWO64 && Position(xs, i) <= CAPACITY && |xs| < TWO64 - 1
  {
    hide Position;
    PositionAbove(xs, |xs| + 1);
    PositionsGrow(xs, i, |xs| + 1);
  }

  lemma FitsPrefix(xs: seq<Bytes>, n: nat)
    requires Fits(xs) && n <= |xs|
    ensures Fits(xs[..n])
  {
    hide Position;
    PositionPrefix(xs, xs[..n], n + 1);
    PositionsGrow(xs, n + 1, |xs| + 1);
  }

  /** Every entry append can build survives being stored: the right child of each inode is the node
      before it, and all its numbers fit their fields. */
  lemma EntryIsStorable(h: Hashing, xs: seq<Bytes>, i: nat)
    requires Fits(xs) && 0 < i <= |xs|
    ensures Storable(EntryOf(h, xs, i))
    ensures |Frame(h, EntryOf(h, xs, i))| == EntryLen(i, |xs[i - 1]|) + DELIMITER_LEN
  {
    hide Position, NodeHash, Low, Pow2, BitLen, Shape.Inodes, Shape.IsNode, Shape.LeftOf, Shape.RightOf;
    var e := EntryOf(h, xs, i);
    FitsInWords(xs, i);
    InodesWithin(i);
    InodeHeights(i);
    var s := Shape.Inodes(i);
    forall k | 0 <= k < |e.inodes|
      ensures StorableINode(e.inodes[k], i, Position(xs, i), HeightBefore(e.inodes, k))
    {
      assert e.inodes[k] == INodeOf(h, xs, s[k]);
      assert Shape.HeightBelow(s, k) == HeightBefore(e.inodes, k);
      FitsInWords(xs, s[k].left.i);
    }
  }

  lemma InodeHeights(i: nat)
    requires 0 < i < TWO64
    ensures var s := Shape.Inodes(i);
      && |s| <= 64
      && (forall k :: 0 <= k < |s| ==> 0 < s[k].node.j <= 64 && s[k].left.j < 64)
      && (forall k :: 0 <= k < |s| ==> s[k].right.j == Shape.HeightBelow(s, k))
  {
    Pow2Of64();
    BitLenAtMost(i - 1, 64);
    Shape.RootIsNode(i);
    Shape.SpineNodes(i, Shape.Height(i));
  }

  /** The log of xs is a valid log, and the positions computed from the payload lengths are its offsets. */
  lemma LogIsValid(h: Hashing, xs: seq<Bytes>)
    requires Fits(xs)
    ensures AllStorable(LogOf(h, xs)) && ValidLog(h, LogOf(h, xs))
    ensures |LogBytes(h, LogOf(h, xs))| == Position(xs, |xs| + 1)
    ensures forall k :: 0 <= k <= |xs| ==> Offset(h, LogOf(h, xs), k) == Position(xs, k + 1)
  {
    hide Storable, Position, EntryOf, Offset, LogBytes;
    var log := LogOf(h, xs);
    forall k | 0 <= k < |log|
      ensures Storable(log[k])
    {
      EntryIsStorable(h, xs, k + 1);
    }
    forall k | 0 <= k <= |xs|
      ensures Offset(h, log, k) == Position(xs, k + 1)
    {
      OffsetIsPosition(h, xs, k);
    }
    forall k | 0 <= k < |log|
      ensures log[k].enode.meta.address.position == Offset(h, log, k)
    {
      EntryAddress(h, xs, k + 1);
    }
    LogEnd(h, log);
  }

  lemma EntryAddress(h: Hashing, xs: seq<Bytes>, i: nat)
    requires 0 < i <= |xs|
    ensures EntryOf(h, xs, i).enode.meta.address == Address(i, 0, Position(xs, i))
    ensures EntryOf(h, xs, i).enode.payload == xs[i - 1]
  {
  }

  lemma {:induction false} OffsetIsPosition(h: Hashing, xs: seq<Bytes>, k: nat)
    requires Fits(xs) && k <= |xs| && AllStorable(LogOf(h, xs))
    ensures Offset(h, LogOf(h, xs), k) == Position(xs, k + 1)
  {
    hide Storable, EntryOf, Offset, Frame, EntryLen;
    var log := LogOf(h, xs);
    if k == 0 {
      OffsetsGrow(h, log, 0, 0);
    } else {
      OffsetIsPosition(h, xs, k - 1);
      OffsetNext(h, log, k - 1);
      EntryIsStorable(h, xs, k);
    }
  }

  /** The log of the first n payloads is how the log of all of them starts. */
  lemma LogOfPrefix(h: Hashing, xs: seq<Bytes>, n: nat)
    requires Fits(xs) && n <= |xs|
    ensures Fits(xs[..n]) && AllStorable(LogOf(h, xs)) && AllStorable(LogOf(h, xs[..n]))
    ensures LogOf(h, xs)[..n] == LogOf(h, xs[..n])
    ensures Position(xs, n + 1) <= |LogBytes(h, LogOf(h, xs))|
    ensures LogBytes(h, LogOf(h, xs))[..Position(xs, n + 1)] == LogBytes(h, LogOf(h, xs[..n]))
  {
    hide Storable, Position, EntryOf, LogBytes;
    FitsPrefix(xs, n);
    LogIsValid(h, xs);
    LogIsValid(h, xs[..n]);
    forall k | 0 <= k < n
      ensures LogOf(h, xs)[k] == LogOf(h, xs[..n])[k]
    {
      assert xs[..n][..k + 1] == xs[..k + 1];
      EntryPrefix(h, xs, xs[..n], k + 1);
    }
    assert LogOf(h, xs)[..n] == LogOf(h, xs[..n]);
    LogPrefix(h, LogOf(h, xs), n);
  }

  /** In anything that starts with the log of xs, entry i is found at its position. */
  lemma ReadEntryOf(h: Hashing, xs: seq<Bytes>, i: nat, bytes: Bytes)
    requires Fits(xs) && 0 < i <= |xs| && AllStorable(LogOf(h, xs)) && LogBytes(h, LogOf(h, xs)) <= bytes
    ensures ReadData(h, bytes, Position(xs, i)) == Ok((EntryOf(h, xs, i), Position(xs, i + 1)))
  {
    hide Storable, Position, EntryOf, Offset, LogBytes, ReadData;
    LogIsValid(h, xs);
    ReadLogged(h, LogOf(h, xs), i - 1, bytes);
  }
}
