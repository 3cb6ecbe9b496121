/** Where every byte of a log stands, field by field and in numbers: what is written, and what reading
    makes of any bytes whatever. */
module Layout {
  import opened Words
  import opened Errors
  import opened Merkle
  import opened Entries
  import opened Serialize
  import opened Checksum
  import opened Storage
  import opened Journal
  import opened SlateModel
  import Shape

  // ----- what is written

  /** An inode: height less one, position and index and height of the left child, hash. */
  lemma INodeBytes(d: INode)
    requires 0 < d.meta.address.j <= 64 && d.left.position < TWO64 && d.left.i < TWO64 && d.left.j < 256
    ensures var b := EncodeINode(d);
      && |b| == 50
      && b[0] == d.meta.address.j - 1
      && FromLe(b[1..9]) == d.left.position
      && FromLe(b[9..17]) == d.left.i
      && b[17] == d.left.j
      && b[18..50] == d.meta.hash
  {
    hide Le, FromLe, Limit;
    Limits();
    LeRoundTrip(d.left.position, 8);
    LeRoundTrip(d.left.i, 8);
    var b := EncodeINode(d);
    assert b[1..9] == Le(d.left.position, 8);
    assert b[9..17] == Le(d.left.i, 8);
    assert b[18..50] == d.meta.hash;
  }

  lemma {:induction false} INodeAt(s: seq<INode>, k: nat)
    requires k < |s| && forall t :: 0 <= t < |s| ==> s[t].meta.address.j > 0
    ensures |EncodeINodes(s)| == 50 * |s| && EncodeINodes(s)[50 * k..50 * k + 50] == EncodeINode(s[k])
    decreases |s|
  {
    hide EncodeINode;
    var p, d := s[..|s| - 1], s[|s| - 1];
    assert |EncodeINode(d)| == 50 by { INodeSize(d); }
    if k < |p| {
      INodeAt(p, k);
      assert p[k] == s[k];
    }
  }

  lemma INodeSize(d: INode)
    requires d.meta.address.j > 0
    ensures |EncodeINode(d)| == 50
  {
  }

  /** An entry: index, number of inodes, the inodes at 9, 59, 109, ..., the length of the payload, the
      payload, the hash of the leaf. */
  lemma EntryBytes(e: Entry)
    requires Storable(e)
    ensures var b, n, p := EncodeEntry(e), |e.inodes|, |e.enode.payload|;
      && |b| == 45 + 50 * n + p
      && FromLe(b[0..8]) == e.enode.meta.address.i
      && b[8] == n
      && FromLe(b[9 + 50 * n..13 + 50 * n]) == p
      && b[13 + 50 * n..13 + 50 * n + p] == e.enode.payload
      && b[13 + 50 * n + p..45 + 50 * n + p] == e.enode.meta.hash
  {
    hide Le, FromLe, Limit, EncodeINodes, EncodeINode, StorableINodes;
    var b, n, p := EncodeEntry(e), |e.inodes|, |e.enode.payload|;
    Limits();
    LeRoundTrip(e.Index(), 8);
    LeRoundTrip(p, 4);
    assert b[0..8] == Le(e.Index(), 8);
    assert b[9 + 50 * n..13 + 50 * n] == Le(p, 4);
    assert b[13 + 50 * n..13 + 50 * n + p] == e.enode.payload;
    assert b[13 + 50 * n + p..45 + 50 * n + p] == e.enode.meta.hash;
  }

  lemma EntryINodeAt(e: Entry, k: nat)
    requires Storable(e) && k < |e.inodes|
    ensures 59 + 50 * k <= |EncodeEntry(e)|
    ensures EncodeEntry(e)[9 + 50 * k..59 + 50 * k] == EncodeINode(e.inodes[k])
  {
    hide Le, EncodeINodes, EncodeINode, StorableINodes;
    INodeAt(e.inodes, k);
    var s := EncodeINodes(e.inodes);
    assert EncodeEntry(e)[9..9 + |s|] == s;
    assert EncodeEntry(e)[9 + 50 * k..59 + 50 * k] == s[50 * k..50 * k + 50];
  }

  /** A delimiter: the length of what it closes, and the checksum over that and the length. */
  lemma DelimiterBytes(h: Hashing, body: Bytes)
    requires |body| < TWO32
    ensures var d := Delimiter(h, body);
      && |d| == 12
      && FromLe(d[0..4]) == |body|
      && FromLe(d[4..12]) == h.checksum(body + d[0..4])
  {
    hide Le, FromLe, Limit;
    var d := Delimiter(h, body);
    Limits();
    LeRoundTrip(|body|, 4);
    assert d[0..4] == Le(|body|, 4);
    LeRoundTrip(h.checksum(body + d[0..4]), 8);
    assert d[4..12] == Le(h.checksum(body + d[0..4]), 8);
  }

  /** What append stores for payload i: the leaf, and the inodes of the generation with their children, each
      with the position of the entry it is in. */
  lemma EntryIs(h: Hashing, xs: seq<Bytes>, i: nat)
    requires 0 < i <= |xs|
    ensures var e, s, at := EntryOf(h, xs, i), Shape.Inodes(i), Position(xs, i);
      && e.enode == ENode(MetaInfo(Address(i, 0, at), h.digest(0, xs[i - 1])), xs[i - 1])
      && |e.inodes| == |s|
      && forall k :: 0 <= k < |s| ==>
        && 0 < s[k].left.i < i
        && e.inodes[k].meta == MetaInfo(Address(i, s[k].node.j, at), NodeHash(h, xs, i, s[k].node.j))
        && e.inodes[k].left == Address(s[k].left.i, s[k].left.j, Position(xs, s[k].left.i))
        && e.inodes[k].right == Address(i, s[k].right.j, at)
  {
    hide Position, NodeHash, Shape.Inodes;
    InodesWithin(i);
    NodeHashLeaf(h, xs, i);
    var e, s := EntryOf(h, xs, i), Shape.Inodes(i);
    assert NodeHash(h, xs, i, 0) == h.digest(0, xs[i - 1]);
    forall k | 0 <= k < |s|
      ensures e.inodes[k] == INodeOf(h, xs, s[k])
    {
    }
  }

  /** A log: four bytes of header, and then the entries, each with its delimiter, without a gap. */
  lemma LogLayout(h: Hashing, xs: seq<Bytes>, i: nat)
    requires Fits(xs) && 0 < i <= |xs|
    ensures var b, p, q := LogBytesOf(h, xs), Position(xs, i), Position(xs, i + 1);
      && b[0..4] == [0x01, 0xF3, 0x33, 0x01]
      && Position(xs, 1) == 4 && q == p + 57 + 50 * |Shape.Inodes(i)| + |xs[i - 1]| && Position(xs, |xs| + 1) == |b|
      && p <= q <= |b|
      && Storable(EntryOf(h, xs, i))
      && b[p..q] == EncodeEntry(EntryOf(h, xs, i)) + Delimiter(h, EncodeEntry(EntryOf(h, xs, i)))
  {
    hide EntryOf, LogBytes, Storable, EncodeEntry, Delimiter, Shape.Inodes, Fits;
    LogIsValid(h, xs);
    EntryIsStorable(h, xs, i);
    var log := LogOf(h, xs);
    LogPrefix(h, log, 0);
    EmptyLog(h);
    assert log[..0] == [];
    OffsetsGrow(h, log, 0, 0);
    FrameStands(h, log, i - 1, LogBytesOf(h, xs));
    OffsetNext(h, log, i - 1);
    assert log[i - 1] == EntryOf(h, xs, i);
    PositionsGrow(xs, i + 1, |xs| + 1);
  }

  lemma EmptyLogBytes(h: Hashing)
    requires Fits([])
    ensures LogBytesOf(h, []) == [0x01, 0xF3, 0x33, 0x01]
  {
    LogIsValid(h, []);
    EmptyLog(h);
    assert LogOf(h, []) == [];
  }

  // ----- what is read

  /** An inode read at a position: six bits of height, no more; its node and its right child are put
      together from the entry and the inode before. */
  ghost predicate INodeFrom(bytes: Bytes, at: nat, d: INode, i: nat, position: nat, rightJ: nat) {
    && at + 50 <= |bytes|
    && d.meta.address == Address(i, bytes[at] % 64 + 1, position)
    && d.meta.hash == bytes[at + 18..at + 50]
    && d.left == Address(FromLe(bytes[at + 9..at + 17]), bytes[at + 17], FromLe(bytes[at + 1..at + 9]))
    && d.right == Address(i, rightJ, position)
  }

  lemma INodeRead(bytes: Bytes, k: nat, i: nat, position: nat, rightJ: nat)
    ensures var r := ReadINode(bytes, k, i, position, rightJ);
      && (r.Ok? <==> k + 50 <= |bytes|)
      && (r.Ok? ==> INodeFrom(bytes, k, r.value, i, position, rightJ))
      && (r.Err? ==> r.error == UnexpectedEof)
  {
    hide FromLe;
  }

  /** The height of the node before inode t; rightJ before the first. */
  function JBefore(s: seq<INode>, t: nat, rightJ: nat): nat
    requires t <= |s|
  {
    if t == 0 then rightJ else s[t - 1].meta.address.j
  }

  ghost predicate INodesFrom(bytes: Bytes, at: nat, s: seq<INode>, i: nat, position: nat, rightJ: nat) {
    forall t: nat {:trigger s[t]} :: t < |s| ==> INodeFrom(bytes, at + 50 * t, s[t], i, position, JBefore(s, t, rightJ))
  }

  lemma INodesFromMore(bytes: Bytes, at: nat, d: INode, s: seq<INode>, i: nat, position: nat, rightJ: nat)
    requires INodeFrom(bytes, at, d, i, position, rightJ)
    requires INodesFrom(bytes, at + 50, s, i, position, d.meta.address.j)
    ensures INodesFrom(bytes, at, [d] + s, i, position, rightJ)
  {
    hide INodeFrom;
    var all := [d] + s;
    forall t: nat | t < |all|
      ensures INodeFrom(bytes, at + 50 * t, all[t], i, position, JBefore(all, t, rightJ))
    {
      if t > 0 {
        var u := t - 1;
        assert all[t] == s[u];
        assert JBefore(all, t, rightJ) == JBefore(s, u, d.meta.address.j);
        assert at + 50 + 50 * u == at + 50 * t;
      }
    }
  }

  lemma {:induction false} INodesRead(bytes: Bytes, k: nat, i: nat, position: nat, count: nat, rightJ: nat)
    ensures var r := ReadINodes(bytes, k, i, position, count, rightJ);
      && (r.Ok? <==> count == 0 || k + 50 * count <= |bytes|)
      && (r.Err? ==> r.error == UnexpectedEof)
      && (r.Ok? ==> INodesFrom(bytes, k, r.value, i, position, rightJ))
    decreases count
  {
    hide FromLe, ReadINode, INodeFrom, INodesFrom;
    if count == 0 {
      NoINodes(bytes, k, i, position, rightJ);
    } else {
      INodeRead(bytes, k, i, position, rightJ);
      var first := ReadINode(bytes, k, i, position, rightJ);
      if first.Ok? {
        var d := first.value;
        assert d.meta.address.j == bytes[k] % 64 + 1 by { INodeHeight(bytes, k, d, i, position, rightJ); }
        INodesRead(bytes, k + 50, i, position, count - 1, d.meta.address.j);
        var rest := ReadINodes(bytes, k + 50, i, position, count - 1, d.meta.address.j);
        if rest.Ok? {
          INodesFromMore(bytes, k, d, rest.value, i, position, rightJ);
        }
      }
    }
  }

  lemma INodeHeight(bytes: Bytes, k: nat, d: INode, i: nat, position: nat, rightJ: nat)
    requires INodeFrom(bytes, k, d, i, position, rightJ)
    ensures k < |bytes| && d.meta.address.j == bytes[k] % 64 + 1
  {
  }

  lemma NoINodes(bytes: Bytes, k: nat, i: nat, position: nat, rightJ: nat)
    ensures INodesFrom(bytes, k, [], i, position, rightJ)
  {
  }

  /** Where an entry read at k ends, if the bytes go that far. */
  function EndOfEntry(bytes: Bytes, k: nat): Option<nat> {
    if k + 9 > |bytes| then None else
      var n: nat := bytes[k + 8];
      var at := k + 9 + 50 * n;
      if at + 4 > |bytes| then None else
        var end := at + 4 + FromLe(bytes[at..at + 4]) % 0x8000_0000 + 32;
        if end > |bytes| then None else Some(end)
  }

  /** Reading an entry anywhere in any bytes: it fails only for want of bytes, and otherwise every field is
      what stands in its place; of the payload length, 31 bits count. */
  lemma EntryRead(bytes: Bytes, k: nat, position: nat)
    ensures ReadEntry(bytes, k, position).Ok? <==> EndOfEntry(bytes, k).Some?
    ensures ReadEntry(bytes, k, position).Err? ==> ReadEntry(bytes, k, position) == Err(UnexpectedEof)
    ensures EndOfEntry(bytes, k).Some? ==>
      var (e, end) := ReadEntry(bytes, k, position).value;
      var i, n: nat := FromLe(bytes[k..k + 8]), bytes[k + 8];
      && end == EndOfEntry(bytes, k).value
      && e.enode.meta == MetaInfo(Address(i, 0, position), bytes[end - 32..end])
      && e.enode.payload == bytes[k + 13 + 50 * n..end - 32]
      && |e.inodes| == n
      && INodesFrom(bytes, k + 9, e.inodes, i, position, 0)
  {
    hide FromLe, ReadINodes, INodesFrom;
    if k + 9 <= |bytes| {
      INodesRead(bytes, k + 9, FromLe(bytes[k..k + 8]), position, bytes[k + 8], 0);
    }
  }

  /** An entry of a log is accepted exactly if it can be read, its delimiter has the length of it, and the
      checksum over both; it ends with its delimiter. */
  lemma DataRead(h: Hashing, bytes: Bytes, k: nat)
    ensures var r := ReadData(h, bytes, k);
      match EndOfEntry(bytes, k)
      case None => r == Err(UnexpectedEof)
      case Some(end) =>
        if end + 12 > |bytes| then r == Err(UnexpectedEof)
        else
          var length, sum := FromLe(bytes[end..end + 4]), FromLe(bytes[end + 4..end + 12]);
          var actual := h.checksum(bytes[k..end + 4]);
          if length != end - k then r == Err(IncorrectEntryHeadOffset(length, end - k))
          else if sum != actual then r == Err(ChecksumVerificationFailed(k, end - k + 12, sum, actual))
          else ReadEntry(bytes, k, k).Ok? && r == Ok((ReadEntry(bytes, k, k).value.0, end + 12))
  {
    hide FromLe, ReadEntry, EndOfEntry, INodesFrom;
    EntryRead(bytes, k, k);
  }

  /** The position dist bytes before from, but not inside the four bytes of the header. */
  function Back(from: nat, dist: nat): Option<nat> {
    if from < 4 + dist then None else Some(from - dist)
  }

  /** What is no log at all: too short, or not beginning with the three bytes of the identifier, or of a
      version after 1. */
  lemma BootRefuses(h: Hashing, bytes: Bytes)
    requires bytes != []
    ensures |bytes| < 4 || bytes[0] != 0x01 || bytes[1] != 0xF3 || bytes[2] != 0x33
      ==> BootData(h, bytes) == Err(StorageIsNotForSlate)
    ensures |bytes| >= 4 && bytes[0] == 0x01 && bytes[1] == 0xF3 && bytes[2] == 0x33 && bytes[3] > 1
      ==> BootData(h, bytes) == Err(IncompatibleVersion(bytes[3] / 16, bytes[3] % 16))
  {
    if |bytes| >= 4 {
      var s := bytes[..3];
      assert s[0] == bytes[0] && s[1] == bytes[1] && s[2] == bytes[2];
      if bytes[0] == 0x01 && bytes[1] == 0xF3 && bytes[2] == 0x33 {
        assert s == [0x01, 0xF3, 0x33];
      }
    }
  }

  /** What is found after a good header: the entry at 4, and the entry that the length in the last twelve
      bytes leads back to, which has to end where the bytes end. */
  lemma BootFinds(h: Hashing, bytes: Bytes)
    requires |bytes| >= 4 && bytes[0] == 0x01 && bytes[1] == 0xF3 && bytes[2] == 0x33 && bytes[3] <= 1
    ensures |bytes| == 4 ==> BootData(h, bytes) == Ok(Booted(None, None, 4))
    ensures |bytes| > 4 && ReadData(h, bytes, 4).Err? ==> BootData(h, bytes) == Err(ReadData(h, bytes, 4).error)
    ensures |bytes| > 4 && ReadData(h, bytes, 4).Ok? ==>
      && |bytes| >= 16
      && match Back(|bytes| - 8, (FromLe(bytes[|bytes| - 12..|bytes| - 8]) + 4) % 0x1_0000_0000)
         case None => BootData(h, bytes) == Err(DamagedStorage)
         case Some(at) =>
           match ReadData(h, bytes, at)
           case Err(e) => BootData(h, bytes) == Err(e)
           case Ok((last, end)) =>
             BootData(h, bytes) == if end == |bytes|
               then Ok(Booted(Some(ReadData(h, bytes, 4).value.0), Some(last), |bytes|)) else Err(DamagedStorage)
  {
    hide FromLe, ReadData;
    var s := bytes[..3];
    assert s == [0x01, 0xF3, 0x33];
  }
}
