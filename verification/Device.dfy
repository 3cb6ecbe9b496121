/** The in-memory block device of src/storage/memory.rs: a byte buffer shared by a writer and its
    read-only clones, each with a cursor of its own. */
module Device {
  import opened Words
  import opened Errors
  import opened Merkle

  /** The first p bytes, with zeros where there are not so many. */
  function Padded(bytes: Bytes, p: nat): (r: Bytes)
    ensures |r| == p
  {
    if p <= |bytes| then bytes[..p] else bytes + seq(p - |bytes|, _ => 0)
  }

  function Rest(bytes: Bytes, k: nat): Bytes {
    if k <= |bytes| then bytes[k..] else []
  }

  /** bytes with w written at position p: what lies beyond is kept, a gap is filled with zeros. Writing
      nothing changes nothing. */
  function Overwrite(bytes: Bytes, p: nat, w: Bytes): (r: Bytes)
    ensures |r| == if w != [] && p + |w| > |bytes| then p + |w| else |bytes|
    ensures w != [] ==> r[p..p + |w|] == w
  {
    if w == [] then bytes else
      assert (Padded(bytes, p) + w + Rest(bytes, p + |w|))[p..p + |w|] == w;
      Padded(bytes, p) + w + Rest(bytes, p + |w|)
  }

  lemma CutApart(a: Bytes, t: Bytes, k: nat)
    ensures Padded(a + t, |a|) == a && Rest(a + t, |a| + k) == Rest(t, k)
  {
    assert (a + t)[..|a|] == a;
    if k <= |t| {
      assert (a + t)[|a| + k..] == t[k..];
    }
  }

  lemma RestOfRest(bytes: Bytes, k: nat, l: nat)
    ensures Rest(Rest(bytes, k), l) == Rest(bytes, k + l)
  {
  }

  /** Two writes in a row are one write of both. */
  lemma OverwriteTwice(bytes: Bytes, p: nat, v: Bytes, w: Bytes)
    ensures Overwrite(Overwrite(bytes, p, v), p + |v|, w) == Overwrite(bytes, p, v + w)
  {
    hide Rest, Padded;
    if v == [] {
      assert v + w == w;
    } else if w == [] {
      assert v + w == v;
    } else {
      var head, end := Padded(bytes, p), p + |v|;
      CutApart(head + v, Rest(bytes, end), |w|);
      RestOfRest(bytes, end, |w|);
      assert head + (v + w) == head + v + w;
    }
  }

  /** Byte k after writing: what was written there, or what was there before, or the zero of a gap. */
  lemma OverwriteAt(bytes: Bytes, p: nat, w: Bytes, k: nat)
    requires w != [] && k < |Overwrite(bytes, p, w)|
    ensures Overwrite(bytes, p, w)[k]
         == if p <= k < p + |w| then w[k - p] else if k < |bytes| then bytes[k] else 0
  {
  }

  lemma OverwriteStart(bytes: Bytes, w: Bytes)
    requires w != []
    ensures Overwrite(bytes, 0, w) == w + if |bytes| > |w| then bytes[|w|..] else []
  {
  }

  lemma OverwriteAtEnd(bytes: Bytes, w: Bytes)
    ensures Overwrite(bytes, |bytes|, w) == bytes + w
  {
  }

  class Buffer {
    var bytes: Bytes

    constructor (bytes: Bytes)
      ensures this.bytes == bytes
    {
      this.bytes := bytes;
    }
  }

  datatype SeekFrom = Start(offset: nat) | End(delta: i64) | Current(delta: i64)

  class MemoryDevice {
    const buffer: Buffer
    const readOnly: bool
    var position: nat
    /** How many times an entry was read through this device. */
    ghost var readCount: nat

    constructor With(buffer: Buffer, readOnly: bool)
      ensures this.buffer == buffer && this.readOnly == readOnly && position == 0 && readCount == 0
    {
      this.buffer := buffer;
      this.readOnly := readOnly;
      position := 0;
      readCount := 0;
    }

    /** A clone shares the buffer, cannot write to it, and starts with its own cursor. */
    method CloneDevice() returns (device: MemoryDevice)
      ensures fresh(device) && device.buffer == buffer && device.readOnly
      ensures device.position == 0 && device.readCount == 0
    {
      device := new MemoryDevice.With(buffer, true);
    }

    /** Moves the cursor to a position counted from the start, the end, or where it is; a target before the
        start wraps around to a position beyond any buffer. */
    method Seek(pos: SeekFrom) returns (p: nat)
      modifies this`position
      ensures p == position
      ensures pos.Start? ==> p == pos.offset
      ensures pos.End? ==> p == if |buffer.bytes| + pos.delta >= 0 then |buffer.bytes| + pos.delta
        else |buffer.bytes| + pos.delta + 0x1_0000_0000_0000_0000
      ensures pos.Current? ==> p == if old(position) + pos.delta >= 0 then old(position) + pos.delta
        else old(position) + pos.delta + 0x1_0000_0000_0000_0000
    {
      var target := match pos
        case Start(offset) => offset
        case End(delta) => |buffer.bytes| + delta
        case Current(delta) => position + delta;
      position := if target >= 0 then target else target + TWO64;
      p := position;
    }

    /** Up to n bytes from the cursor; fewer at the end of the buffer, none beyond it. */
    method Read(n: nat) returns (buf: Bytes)
      modifies this`position
      ensures position == old(position) + |buf|
      ensures |buf| == if old(position) + n <= |buffer.bytes| then n
        else if old(position) <= |buffer.bytes| then |buffer.bytes| - old(position) else 0
      ensures forall k :: 0 <= k < |buf| ==> buf[k] == buffer.bytes[old(position) + k]
    {
      var bytes := buffer.bytes;
      if position > |bytes| {
        return [];
      }
      var end := if position + n <= |bytes| then position + n else |bytes|;
      buf := bytes[position..end];
      position := end;
    }

    method ReadExact(n: nat) returns (r: Result<Bytes>)
      requires position <= |buffer.bytes|
      modifies this`position
      ensures old(position) <= position <= |buffer.bytes|
      ensures r.Ok? <==> old(position) + n <= |buffer.bytes|
      ensures r.Ok? ==> position == old(position) + n && r.value == buffer.bytes[old(position)..position]
      ensures r.Err? ==> r.error == UnexpectedEof && position == |buffer.bytes|
    {
      var buf := Read(n);
      assert buf == buffer.bytes[old(position)..position];
      r := if |buf| == n then Ok(buf) else Err(UnexpectedEof);
    }

    /** Writes all of buf; on a read-only device that fails, unless there is nothing to write. */
    method WriteAll(buf: Bytes) returns (r: Result<()>)
      modifies this`position, buffer
      ensures readOnly && buf != [] ==> r == Err(PermissionDenied)
      ensures readOnly ==> buffer.bytes == old(buffer.bytes) && position == old(position)
      ensures !readOnly || buf == [] ==> r.Ok? && position == old(position) + |buf|
      ensures !readOnly ==> buffer.bytes == Overwrite(old(buffer.bytes), old(position), buf)
    {
      if buf == [] {
        return Ok(());
      }
      if readOnly {
        return Err(PermissionDenied);
      }
      buffer.bytes := Overwrite(buffer.bytes, position, buf);
      position := position + |buf|;
      r := Ok(());
    }

    /** Cuts the buffer off at the given position; true if there was anything to cut. */
    method Truncate(position: nat) returns (r: Result<bool>)
      modifies this`position, buffer
      ensures readOnly ==> r == Err(PermissionDenied)
      ensures !readOnly ==> r == Ok(position < |old(buffer.bytes)|)
      ensures r == Ok(true) ==> buffer.bytes == old(buffer.bytes)[..position] && this.position == position
      ensures r != Ok(true) ==> buffer.bytes == old(buffer.bytes) && this.position == old(this.position)
    {
      if readOnly {
        return Err(PermissionDenied);
      }
      if position < |buffer.bytes| {
        buffer.bytes := buffer.bytes[..position];
        this.position := position;
        r := Ok(true);
      } else {
        r := Ok(false);
      }
    }
  }
}
