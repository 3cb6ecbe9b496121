/** Streams that count and checksum what passes through them (src/checksum.rs), and the entry reader
    and writer on top of them (src/serialize.rs). */
module Checksum {
  import opened Words
  import opened Errors
  import opened Merkle
  import opened Entries
  import opened Device
  import opened Serialize

  class ChecksumWrite {
    const hashing: Hashing
    const output: MemoryDevice
    /** The bytes fed to the hasher so far. */
    var hashed: Bytes
    var offset: nat
    ghost const base: Bytes
    ghost const start: nat

    /** Everything written since the start has reached the device, and all of it was hashed. */
    ghost predicate Valid()
      reads this, output, output.buffer
    {
      && offset == |hashed| < TWO32
      && output.position == start + |hashed|
      && output.buffer.bytes == Overwrite(base, start, hashed)
    }

    constructor (hashing: Hashing, output: MemoryDevice)
      ensures this.hashing == hashing && this.output == output && hashed == []
      ensures base == output.buffer.bytes && start == output.position
      ensures Valid()
    {
      this.hashing := hashing;
      this.output := output;
      hashed := [];
      offset := 0;
      base := output.buffer.bytes;
      start := output.position;
    }

    method Write(buf: Bytes) returns (r: Result<()>)
      requires Valid() && |hashed| + |buf| < TWO32
      modifies this, output`position, output.buffer
      ensures Valid()
      ensures output.readOnly && buf != [] ==> r == Err(PermissionDenied)
      ensures !output.readOnly || buf == [] ==> r.Ok?
      ensures hashed == if r.Ok? then old(hashed) + buf else old(hashed)
    {
      OverwriteTwice(base, start, hashed, buf);
      var _ :- output.WriteAll(buf);
      hashed := hashed + buf;
      offset := offset + |buf|;
      r := Ok(());
    }

    /** The offset back to the start of the entry, and the checksum of everything including that offset. */
    method WriteDelimiter() returns (r: Result<nat>)
      requires Valid() && |hashed| + DELIMITER_LEN < TWO32
      modifies this, output`position, output.buffer
      ensures output.readOnly ==> r == Err(PermissionDenied) && Valid() && hashed == old(hashed)
      ensures !output.readOnly ==> r == Ok(DELIMITER_LEN) && offset == old(offset) + DELIMITER_LEN
      ensures !output.readOnly ==>
        var w := old(hashed) + Delimiter(hashing, old(hashed));
        output.buffer.bytes == Overwrite(base, start, w) && output.position == start + |w|
    {
      hide Le, Overwrite;
      ghost var body := hashed;
      var _ :- Write(Le(offset, 4));
      var checksum := hashing.checksum(hashed);
      OverwriteTwice(base, start, hashed, Le(checksum, 8));
      // the device has taken the offset, so it takes the checksum too
      var _ := output.WriteAll(Le(checksum, 8));
      offset := offset + 8;
      assert hashed + Le(checksum, 8) == body + Delimiter(hashing, body);
      r := Ok(DELIMITER_LEN);
    }
  }

  /** The twelve bytes that close an entry whose bytes are body. */
  function Delimiter(h: Hashing, body: Bytes): (r: Bytes)
    ensures |r| == DELIMITER_LEN
  {
    Le(|body|, 4) + Le(h.checksum(body + Le(|body|, 4)), 8)
  }

  /** An entry as it stands in the log. */
  function Frame(h: Hashing, e: Entry): Bytes
    requires Writable(e)
  {
    EncodeEntry(e) + Delimiter(h, EncodeEntry(e))
  }

  lemma WritableFits(e: Entry)
    requires Writable(e)
    ensures |EncodeEntry(e)| == 9 + |e.inodes| * INODE_LEN + 4 + |e.enode.payload| + HASH_SIZE
    ensures |EncodeEntry(e)| + DELIMITER_LEN < TWO32
  {
  }

  lemma EncodeOneMore(s: seq<INode>, k: nat)
    requires k < |s| && forall t :: 0 <= t < |s| ==> s[t].meta.address.j > 0
    ensures EncodeINodes(s[..0]) == []
    ensures EncodeINodes(s[..k + 1]) == EncodeINodes(s[..k]) + EncodeINode(s[k])
  {
    hide EncodeINode;
    assert s[..k + 1][..k] == s[..k] && s[..0] == [];
  }

  method WriteINodes(index: nat, inodes: seq<INode>, w: ChecksumWrite) returns (r: Result<nat>)
    requires w.Valid() && w.hashed == [] && |inodes| <= 0xFF
    requires forall k :: 0 <= k < |inodes| ==> inodes[k].meta.address.j > 0
    modifies w, w.output`position, w.output.buffer
    ensures w.Valid()
    ensures w.output.readOnly ==> r == Err(PermissionDenied) && w.hashed == []
    ensures !w.output.readOnly ==> r == Ok(|w.hashed|)
    ensures !w.output.readOnly ==> w.hashed == Le(index, 8) + [|inodes| % 256] + EncodeINodes(inodes)
  {
    hide Le, EncodeINode, EncodeINodes, Overwrite, ChecksumWrite.Valid;
    var length := 9;
    var _ :- w.Write(Le(index, 8));
    // a device that took the first write takes all of them
    var _ := w.Write([|inodes| % 256]);
    ghost var head := w.hashed;
    assert inodes[..0] == [];
    assert |EncodeINodes([])| == 0;
    for k := 0 to |inodes|
      invariant w.Valid() && length == |w.hashed| == 9 + k * INODE_LEN
      invariant w.hashed == head + EncodeINodes(inodes[..k])
    {
      var d := inodes[k];
      length := length + 18 + |d.meta.hash|;
      var _ := WriteINode(d, w);
      EncodeOneMore(inodes, k);
    }
    assert inodes[..|inodes|] == inodes;
    r := Ok(length);
  }

  method WriteINode(d: INode, w: ChecksumWrite) returns (r: Result<()>)
    requires w.Valid() && |w.hashed| + INODE_LEN < TWO32 && d.meta.address.j > 0
    modifies w, w.output`position, w.output.buffer
    ensures w.Valid()
    ensures w.output.readOnly ==> r == Err(PermissionDenied) && w.hashed == old(w.hashed)
    ensures !w.output.readOnly ==> r.Ok? && w.hashed == old(w.hashed) + EncodeINode(d)
  {
    hide Le, Overwrite, ChecksumWrite.Valid;
    var _ :- w.Write([(d.meta.address.j - 1) % INDEX_SIZE]);
    var _ := w.Write(Le(d.left.position, 8));
    var _ := w.Write(Le(d.left.i, 8));
    var _ := w.Write([d.left.j % 256]);
    r := w.Write(d.meta.hash);
  }

  method WriteEntry(e: Entry, w: ChecksumWrite) returns (r: Result<nat>)
    requires w.Valid() && w.hashed == [] && Writable(e)
    modifies w, w.output`position, w.output.buffer
    ensures w.Valid()
    ensures w.output.readOnly ==> r == Err(PermissionDenied) && w.hashed == []
    ensures !w.output.readOnly ==> r == Ok(|EncodeEntry(e)|) && w.hashed == EncodeEntry(e)
  {
    hide Le, Overwrite, ChecksumWrite.Valid, EncodeINodes;
    WritableFits(e);
    var length :- WriteINodes(e.Index(), e.inodes, w);
    length := length + 4 + |e.enode.payload| + |e.enode.meta.hash|;
    var _ := w.Write(Le(|e.enode.payload|, 4));
    var _ := w.Write(e.enode.payload);
    var _ := w.Write(e.enode.meta.hash);
    r := Ok(length);
  }

  class ChecksumRead {
    const hashing: Hashing
    const input: MemoryDevice
    var hashed: Bytes
    var offset: nat
    ghost const start: nat

    ghost predicate Valid()
      reads this, input, input.buffer
    {
      && offset == |hashed| < TWO32
      && start + |hashed| == input.position <= |input.buffer.bytes|
      && hashed == input.buffer.bytes[start..input.position]
    }

    constructor (hashing: Hashing, input: MemoryDevice)
      requires input.position <= |input.buffer.bytes|
      ensures this.hashing == hashing && this.input == input && hashed == [] && start == input.position
      ensures Valid()
    {
      this.hashing := hashing;
      this.input := input;
      hashed := [];
      offset := 0;
      start := input.position;
    }

    method ReadExact(n: nat) returns (r: Result<Bytes>)
      requires Valid() && |hashed| + n < TWO32
      modifies this, input`position
      ensures r == Take(input.buffer.bytes, old(input.position), n)
      ensures r.Ok? ==> Valid() && input.position == old(input.position) + n && hashed == old(hashed) + r.value
    {
      var buf :- input.ReadExact(n);
      hashed := hashed + buf;
      offset := offset + n;
      r := Ok(buf);
    }

    /** The recorded offset and checksum beside those of what was read; the check of src/checksum.rs. */
    method CheckDelimiter() returns (r: Result<nat>)
      requires Valid() && |hashed| + 4 < TWO32
      modifies this, input`position
      ensures r == DelimiterCheck(hashing, input.buffer.bytes, start, old(input.position))
      ensures r.Ok? ==> input.position == old(input.position) + DELIMITER_LEN
    {
      ghost var bytes, k := input.buffer.bytes, input.position;
      var actualOffset := offset;
      var o :- ReadExact(4);
      var offset := FromLe(o);
      assert hashed == bytes[start..k + 4];
      var c :- input.ReadExact(8);
      var checksum := FromLe(c);
      assert c == bytes[k + 4..k + 12];
      var actualChecksum := hashing.checksum(hashed);
      if actualOffset != offset {
        return Err(IncorrectEntryHeadOffset(offset, actualOffset));
      }
      if actualChecksum != checksum {
        var length := offset + DELIMITER_LEN;
        return Err(ChecksumVerificationFailed(input.position - length, length, checksum, actualChecksum));
      }
      r := Ok(DELIMITER_LEN);
    }
  }

  /** Whether a delimiter stands at k for the bytes from start to k. */
  function DelimiterCheck(h: Hashing, bytes: Bytes, start: nat, k: nat): Result<nat>
    requires start <= k
  {
    var o :- Take(bytes, k, 4);
    var c :- Take(bytes, k + 4, 8);
    var sum := h.checksum(bytes[start..k + 4]);
    if FromLe(o) != k - start then Err(IncorrectEntryHeadOffset(FromLe(o), k - start))
    else if FromLe(c) != sum then Err(ChecksumVerificationFailed(start, k - start + DELIMITER_LEN, FromLe(c), sum))
    else Ok(DELIMITER_LEN)
  }

  /** The inodes read so far put in front of those still to come. */
  function After(read: seq<INode>, rest: Result<seq<INode>>): Result<seq<INode>> {
    var s :- rest;
    Ok(read + s)
  }

  lemma AfterOneMore(bytes: Bytes, k: nat, i: nat, position: nat, count: nat, rightJ: nat, read: seq<INode>)
    requires count > 0
    ensures After(read, ReadINodes(bytes, k, i, position, count, rightJ))
         == match ReadINode(bytes, k, i, position, rightJ)
            case Err(e) => Err(e)
            case Ok(d) => After(read + [d], ReadINodes(bytes, k + INODE_LEN, i, position, count - 1, d.meta.address.j))
  {
    hide ReadINode;
    var next := ReadINode(bytes, k, i, position, rightJ);
    if next.Ok? {
      var rest := ReadINodes(bytes, k + INODE_LEN, i, position, count - 1, next.value.meta.address.j);
      if rest.Ok? {
        assert read + ([next.value] + rest.value) == read + [next.value] + rest.value;
      }
    }
  }

  lemma NothingAfter(bytes: Bytes, k: nat, i: nat, position: nat, rightJ: nat, read: seq<INode>)
    ensures After(read, ReadINodes(bytes, k, i, position, 0, rightJ)) == Ok(read)
  {
    assert read + [] == read;
  }

  method ReadINodeFrom(s: ChecksumRead, i: nat, position: nat, rightJ: nat) returns (r: Result<INode>)
    requires s.Valid() && |s.hashed| + INODE_LEN < TWO32
    modifies s, s.input`position
    ensures r == ReadINode(s.input.buffer.bytes, old(s.input.position), i, position, rightJ)
    ensures r.Ok? ==> s.Valid() && |s.hashed| == old(|s.hashed|) + INODE_LEN
  {
    var j :- s.ReadExact(1);
    var leftPosition :- s.ReadExact(8);
    var leftI :- s.ReadExact(8);
    var leftJ :- s.ReadExact(1);
    var hash :- s.ReadExact(HASH_SIZE);
    r := Ok(INode(MetaInfo(Address(i, j[0] % INDEX_SIZE + 1, position), hash),
                  Address(FromLe(leftI), leftJ[0], FromLe(leftPosition)), Address(i, rightJ, position)));
  }

  method ReadINodesFrom(s: ChecksumRead, position: nat) returns (r: Result<(nat, seq<INode>)>)
    requires s.Valid() && s.hashed == []
    modifies s, s.input`position
    ensures r == ReadHead(s.input.buffer.bytes, old(s.input.position), position)
    ensures r.Ok? ==> s.Valid() && |r.value.1| < 256 && |s.hashed| == 9 + |r.value.1| * INODE_LEN
  {
    hide ReadINodes, ReadINode, FromLe;
    ghost var bytes, k := s.input.buffer.bytes, s.input.position;
    var index :- s.ReadExact(8);
    var i := FromLe(index);
    var count :- s.ReadExact(1);
    var rightJ := 0;
    var inodes := [];
    ghost var all := ReadINodes(bytes, k + 9, i, position, count[0], 0);
    assert all == After([], all) by {
      if all.Ok? { assert [] + all.value == all.value; }
    }
    for t := 0 to count[0]
      invariant s.Valid() && |inodes| == t && |s.hashed| == 9 + t * INODE_LEN
      invariant all == After(inodes, ReadINodes(bytes, k + 9 + t * INODE_LEN, i, position, count[0] - t, rightJ))
    {
      AfterOneMore(bytes, k + 9 + t * INODE_LEN, i, position, count[0] - t, rightJ, inodes);
      var d :- ReadINodeFrom(s, i, position, rightJ);
      inodes := inodes + [d];
      rightJ := d.meta.address.j;
    }
    NothingAfter(bytes, s.input.position, i, position, rightJ, inodes);
    r := Ok((i, inodes));
  }

  method ReadEntryFrom(s: ChecksumRead, position: nat) returns (r: Result<Entry>)
    requires s.Valid() && s.hashed == []
    modifies s, s.input`position
    ensures match ReadEntry(s.input.buffer.bytes, old(s.input.position), position)
      case Ok((e, k)) => r == Ok(e) && s.Valid() && s.input.position == k && |s.hashed| + 4 < TWO32
      case Err(e) => r == Err(e)
  {
    hide ReadHead, FromLe;
    var head :- ReadINodesFrom(s, position);
    var (i, inodes) := head;
    var size :- s.ReadExact(4);
    var payloadSize := FromLe(size) % (MAX_PAYLOAD_SIZE + 1);
    var payload :- s.ReadExact(payloadSize);
    var hash :- s.ReadExact(HASH_SIZE);
    r := Ok(Entry(ENode(MetaInfo(Address(i, 0, position), hash), payload), inodes));
  }
}
