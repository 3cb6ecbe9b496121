/** The log (src/storage.rs): a four-byte header followed by one frame per entry. Booting finds the
    last entry through the offset that closes its frame; a reader reads or scans entries by position. */
module Storage {
  import opened Words
  import opened Errors
  import opened Merkle
  import opened Entries
  import opened Device
  import opened Serialize
  import opened Checksum

  const STORAGE_IDENTIFIER: Bytes := [0x01, 0xF3, 0x33]
  const STORAGE_VERSION: byte := 1
  const HEADER: Bytes := STORAGE_IDENTIFIER + [STORAGE_VERSION]

  // ----- logs as byte sequences

  predicate AllStorable(log: seq<Entry>) {
    forall k :: 0 <= k < |log| ==> Storable(log[k])
  }

  function LogBytes(h: Hashing, log: seq<Entry>): (bytes: Bytes)
    requires AllStorable(log)
    ensures |bytes| >= HEADER_LEN
  {
    if log == [] then HEADER else LogBytes(h, log[..|log| - 1]) + Frame(h, log[|log| - 1])
  }

  /** Where entry number k (from 0) starts. */
  function Offset(h: Hashing, log: seq<Entry>, k: nat): nat
    requires AllStorable(log) && k <= |log|
  {
    |LogBytes(h, log[..k])|
  }

  /** Every entry records the position it is stored at. */
  predicate ValidLog(h: Hashing, log: seq<Entry>) {
    AllStorable(log) && forall k :: 0 <= k < |log| ==> log[k].enode.meta.address.position == Offset(h, log, k)
  }

  lemma OffsetNext(h: Hashing, log: seq<Entry>, k: nat)
    requires AllStorable(log) && k < |log|
    ensures Offset(h, log, k + 1) == Offset(h, log, k) + |Frame(h, log[k])|
  {
    assert log[..k + 1][..k] == log[..k];
  }

  lemma {:induction false} OffsetsGrow(h: Hashing, log: seq<Entry>, k: nat, l: nat)
    requires AllStorable(log) && k <= l <= |log|
    ensures k < l ==> Offset(h, log, k) + DELIMITER_LEN < Offset(h, log, l)
    ensures k == 0 ==> Offset(h, log, k) == HEADER_LEN
    decreases l
  {
    hide Storable, AllStorable;
    if k < l {
      OffsetsGrow(h, log, k, l - 1);
      OffsetNext(h, log, l - 1);
    }
  }

  /** The start of a log is the log of its first entries. */
  lemma {:induction false} LogPrefix(h: Hashing, log: seq<Entry>, k: nat)
    requires AllStorable(log) && k <= |log|
    ensures Offset(h, log, k) <= |LogBytes(h, log)| && LogBytes(h, log)[..Offset(h, log, k)] == LogBytes(h, log[..k])
    decreases |log|
  {
    hide Frame, Storable;
    if k == |log| {
      assert log[..k] == log;
    } else {
      var rest := log[..|log| - 1];
      LogPrefix(h, rest, k);
      assert rest[..k] == log[..k];
    }
  }

  lemma LogEnd(h: Hashing, log: seq<Entry>)
    requires AllStorable(log)
    ensures Offset(h, log, |log|) == |LogBytes(h, log)|
  {
    assert log[..|log|] == log;
  }

  /** Frame k stands at its offset in anything that starts with the log. */
  lemma FrameStands(h: Hashing, log: seq<Entry>, k: nat, bytes: Bytes)
    requires AllStorable(log) && k < |log| && LogBytes(h, log) <= bytes
    ensures Stands(bytes, Offset(h, log, k), Frame(h, log[k]))
  {
    hide LogBytes, Frame, Storable;
    LogPrefix(h, log, k + 1);
    OffsetNext(h, log, k);
    var o, p := Offset(h, log, k), Offset(h, log, k + 1);
    LastFrame(h, log[..k + 1]);
    assert log[..k + 1][..k] == log[..k] && log[..k + 1][k] == log[k];
    var start := LogBytes(h, log[..k + 1]);
    assert bytes[..p] == LogBytes(h, log)[..p] == start;
    assert bytes[o..p] == bytes[..p][o..] == start[o..] == Frame(h, log[k]);
  }

  lemma LastFrame(h: Hashing, log: seq<Entry>)
    requires AllStorable(log) && log != []
    ensures LogBytes(h, log) == LogBytes(h, log[..|log| - 1]) + Frame(h, log[|log| - 1])
  {
  }

  // ----- reading one entry

  /** The entry at a position, with its delimiter checked, and the position after it. */
  function ReadData(h: Hashing, bytes: Bytes, at: nat): (r: Result<(Entry, nat)>)
    ensures r.Ok? ==> at + DELIMITER_LEN <= r.value.1 <= |bytes|
  {
    var read :- ReadEntry(bytes, at, at);
    var (e, k) := read;
    var _ :- DelimiterCheck(h, bytes, at, k);
    Ok((e, k + DELIMITER_LEN))
  }

  lemma DataIsStorable(h: Hashing, bytes: Bytes, position: nat)
    requires ReadData(h, bytes, position).Ok?
    ensures Storable(ReadData(h, bytes, position).value.0)
  {
    hide ReadEntry, Storable;
    ReadIsStorable(bytes, position, position);
  }

  lemma ReadFrame(h: Hashing, bytes: Bytes, e: Entry)
    requires Storable(e) && Stands(bytes, e.enode.meta.address.position, Frame(h, e))
    ensures var k := e.enode.meta.address.position;
      ReadData(h, bytes, k) == Ok((e, k + |Frame(h, e)|))
  {
    hide Le, FromLe, EncodeEntry, ReadEntry, Limit;
    var at, body := e.enode.meta.address.position, EncodeEntry(e);
    StandsSplit(bytes, at, body, Delimiter(h, body));
    EntryRoundTrip(bytes, at, e);
    var k := at + |body|;
    var o, c := Le(|body|, 4), Le(h.checksum(body + Le(|body|, 4)), 8);
    StandsSplit(bytes, k, o, c);
    assert bytes[at..k + 4] == bytes[at..k] + bytes[k..k + 4];
    WritableFits(e);
    Limits();
    LeRoundTrip(|body|, 4);
    LeRoundTrip(h.checksum(body + o), 8);
  }

  /** Entry k of a log is found at its offset. */
  lemma ReadLogged(h: Hashing, log: seq<Entry>, k: nat, bytes: Bytes)
    requires ValidLog(h, log) && k < |log| && LogBytes(h, log) <= bytes
    ensures ReadData(h, bytes, Offset(h, log, k)) == Ok((log[k], Offset(h, log, k + 1)))
  {
    hide ReadData, LogBytes, Frame, Stands;
    FrameStands(h, log, k, bytes);
    ReadFrame(h, bytes, log[k]);
    OffsetNext(h, log, k);
  }

  method ReadDataFrom(h: Hashing, cursor: MemoryDevice, position: nat) returns (r: Result<Entry>)
    requires cursor.position == position <= |cursor.buffer.bytes|
    modifies cursor`position
    ensures match ReadData(h, cursor.buffer.bytes, position)
      case Ok((e, k)) => r == Ok(e) && cursor.position == k
      case Err(e) => r == Err(e)
  {
    var s := new ChecksumRead(h, cursor);
    var data :- ReadEntryFrom(s, position);
    var _ :- s.CheckDelimiter();
    r := Ok(data);
  }

  /** Reader::read */
  method ReadAt(h: Hashing, reader: MemoryDevice, position: nat) returns (r: Result<Entry>)
    modifies reader`position, reader`readCount
    ensures reader.readCount == old(reader.readCount) + 1
    ensures match ReadData(h, reader.buffer.bytes, position)
      case Ok((e, k)) => r == Ok(e)
      case Err(e) => r == Err(e)
  {
    reader.readCount := reader.readCount + 1;
    var _ := reader.Seek(Start(position));
    if position > |reader.buffer.bytes| {
      return Err(UnexpectedEof);
    }
    r := ReadDataFrom(h, reader, position);
  }

  // ----- scanning

  /** Up to count entries from a position, each passed to the callback: its final state and the number read. */
  function ScanData<A>(h: Hashing, bytes: Bytes, position: nat, count: nat, a: A, f: (A, Entry) -> Option<A>)
    : Result<(A, nat)>
    decreases count
  {
    if position >= |bytes| || count == 0 then Ok((a, 0)) else
      var data :- ReadData(h, bytes, position);
      match f(a, data.0)
      case None => Err(Callback)
      case Some(b) =>
        var rest :- ScanData(h, bytes, data.1, count - 1, b, f);
        Ok((rest.0, rest.1 + 1))
  }

  lemma {:induction false} ScanLogged<A>(h: Hashing, log: seq<Entry>, k: nat, count: nat, bytes: Bytes,
                                         a: A, f: (A, Entry) -> Option<A>)
    requires ValidLog(h, log) && LogBytes(h, log) <= bytes && k <= |log|
    requires k + count <= |log| || bytes == LogBytes(h, log)
    ensures var n := if k + count <= |log| then count else |log| - k;
      ScanData(h, bytes, Offset(h, log, k), count, a, f)
        == match Fold(log[k..k + n], a, f) case None => Err(Callback) case Some(b) => Ok((b, n))
    decreases count
  {
    hide ReadData, LogBytes, Frame, Offset, Storable, ValidLog, AllStorable;
    var n := if k + count <= |log| then count else |log| - k;
    WithinLog(h, log, k, bytes);
    if n > 0 {
      ReadLogged(h, log, k, bytes);
      var s := log[k..k + n];
      assert s[0] == log[k] && s[1..] == log[k + 1..k + n];
      match f(a, log[k])
      case None =>
      case Some(b) => ScanLogged(h, log, k + 1, count - 1, bytes, b, f);
    }
  }

  /** A scan of a log ends with an error exactly if the callback refuses one of the entries. */
  lemma ScanRefused<A(!new)>(h: Hashing, log: seq<Entry>, k: nat, count: nat, bytes: Bytes,
                             a: A, f: (A, Entry) -> Option<A>)
    requires ValidLog(h, log) && LogBytes(h, log) <= bytes && k <= |log|
    requires k + count <= |log| || bytes == LogBytes(h, log)
    ensures var n := if k + count <= |log| then count else |log| - k;
      ScanData(h, bytes, Offset(h, log, k), count, a, f) == Err(Callback) <==> Refused(log[k..k + n], a, f)
  {
    hide LogBytes, Frame, Offset, Storable, ValidLog, AllStorable, ScanData, Fold, Refused;
    ScanLogged(h, log, k, count, bytes, a, f);
    FoldRefused(log[k..if k + count <= |log| then k + count else |log|], a, f);
  }

  /** Entry k starts before the end of the bytes; after the last entry of the log, the log ends. */
  lemma WithinLog(h: Hashing, log: seq<Entry>, k: nat, bytes: Bytes)
    requires ValidLog(h, log) && LogBytes(h, log) <= bytes && k <= |log|
    ensures AllStorable(log)
    ensures k < |log| ==> Offset(h, log, k) < |bytes|
    ensures Offset(h, log, |log|) == |LogBytes(h, log)|
  {
    hide LogBytes, Frame;
    LogEnd(h, log);
    OffsetsGrow(h, log, k, |log|);
  }

  /** Reader::scan */
  method Scan<A>(h: Hashing, reader: MemoryDevice, start: nat, count: nat, init: A, f: (A, Entry) -> Option<A>)
    returns (r: Result<(A, nat)>)
    modifies reader`position
    ensures r == ScanData(h, reader.buffer.bytes, start, count, init, f)
  {
    hide ReadData;
    var bytes := reader.buffer.bytes;
    var read, position, a := 0, start, init;
    var last := reader.Seek(End(0));
    if position < last {
      var _ := reader.Seek(Start(position));
      while position < last && read < count
        invariant reader.position == position <= last && read <= count
        invariant ScanData(h, bytes, start, count, init, f)
               == AfterReading(read, ScanData(h, bytes, position, count - read, a, f))
        decreases count - read
      {
        var data :- ReadDataFrom(h, reader, position);
        match f(a, data) {
          case None =>
            return Err(Callback);
          case Some(b) =>
            a := b;
        }
        read := read + 1;
        position := reader.position;
      }
    }
    r := Ok((a, read));
  }

  function AfterReading<A>(read: nat, rest: Result<(A, nat)>): Result<(A, nat)> {
    var r :- rest;
    Ok((r.0, read + r.1))
  }

  // ----- booting

  /** The first and the last entry, if there are any, and where the next one goes. */
  datatype Booted = Booted(first: Option<Entry>, last: Option<Entry>, next: nat)

  /** The position dist bytes before from, unless that runs into the header. */
  function BackToSafety(from: nat, dist: nat): Result<nat> {
    if from < |STORAGE_IDENTIFIER| + 1 + dist then Err(DamagedStorage) else Ok(from - dist)
  }

  /** The bytes of a device after booting: an empty device gets its header. */
  function Formatted(bytes: Bytes): Bytes {
    if bytes == [] then HEADER else bytes
  }

  /** What booting finds on any bytes whatever. */
  function BootData(h: Hashing, bytes: Bytes): (r: Result<Booted>)
    ensures r.Ok? && r.value.last.Some? ==> Storable(r.value.last.value)
  {
    if |bytes| == 0 then Ok(Booted(None, None, HEADER_LEN))
    else if |bytes| <= 3 || bytes[..3] != STORAGE_IDENTIFIER then Err(StorageIsNotForSlate)
    else if bytes[3] > STORAGE_VERSION then Err(IncompatibleVersion(bytes[3] / 16, bytes[3] % 16))
    else if |bytes| == HEADER_LEN then Ok(Booted(None, None, HEADER_LEN))
    else
      var first :- ReadData(h, bytes, HEADER_LEN);
      var k :- BackToSafety(|bytes|, DELIMITER_LEN);
      var o :- Take(bytes, k, 4);
      var position :- BackToSafety(k + 4, (FromLe(o) + 4) % TWO32);
      var last :- ReadData(h, bytes, position);
      DataIsStorable(h, bytes, position);
      if last.1 != |bytes| then Err(DamagedStorage)
      else Ok(Booted(Some(first.0), Some(last.0), |bytes|))
  }

  /** Booting a log finds its first entry, its last entry and its end. */
  lemma BootLogged(h: Hashing, log: seq<Entry>)
    requires ValidLog(h, log)
    ensures BootData(h, LogBytes(h, log)) == Ok(
      if log == [] then Booted(None, None, HEADER_LEN)
      else Booted(Some(log[0]), Some(log[|log| - 1]), |LogBytes(h, log)|))
  {
    hide ReadData, LogBytes, Frame, BootData, Storable, HEADER, Offset, LeadsBackTo;
    var bytes := LogBytes(h, log);
    LogPrefix(h, log, 0);
    EmptyLog(h);
    assert log[..0] == [];
    OffsetsGrow(h, log, 0, 0);
    if log == [] {
      BootEmpty(h);
    } else {
      var n := |log|;
      LogEnd(h, log);
      OffsetsGrow(h, log, 0, n - 1);
      OffsetsGrow(h, log, n - 1, n);
      OffsetNext(h, log, n - 1);
      ReadLogged(h, log, 0, bytes);
      ReadLogged(h, log, n - 1, bytes);
      FrameStands(h, log, n - 1, bytes);
      BackOffset(h, log[n - 1], bytes, Offset(h, log, n - 1));
      BootFound(h, bytes, log[0], Offset(h, log, 1), log[n - 1], Offset(h, log, n - 1));
    }
  }

  lemma BootEmpty(h: Hashing)
    ensures BootData(h, HEADER) == Ok(Booted(None, None, HEADER_LEN))
  {
    assert HEADER[..3] == STORAGE_IDENTIFIER;
  }

  lemma BootFound(h: Hashing, bytes: Bytes, first: Entry, second: nat, last: Entry, at: nat)
    requires |bytes| > HEADER_LEN && bytes[..HEADER_LEN] == HEADER
    requires ReadData(h, bytes, HEADER_LEN) == Ok((first, second))
    requires ReadData(h, bytes, at) == Ok((last, |bytes|))
    requires LeadsBackTo(bytes, at)
    ensures BootData(h, bytes) == Ok(Booted(Some(first), Some(last), |bytes|))
  {
    hide ReadData, FromLe;
    assert bytes[..3] == bytes[..HEADER_LEN][..3] == STORAGE_IDENTIFIER;
    assert bytes[3] == bytes[..HEADER_LEN][3] == STORAGE_VERSION;
  }

  /** The offset recorded in the last delimiter, followed from there, leads to position at. */
  ghost predicate LeadsBackTo(bytes: Bytes, at: nat) {
    && |bytes| >= DELIMITER_LEN
    && var k := |bytes| - DELIMITER_LEN;
      && BackToSafety(|bytes|, DELIMITER_LEN) == Ok(k) && Take(bytes, k, 4).Ok?
      && BackToSafety(k + 4, (FromLe(Take(bytes, k, 4).value) + 4) % TWO32) == Ok(at)
  }

  lemma EmptyLog(h: Hashing)
    ensures LogBytes(h, []) == HEADER
  {
  }

  /** The offset in the delimiter of the last frame leads back to where that frame starts. */
  lemma BackOffset(h: Hashing, e: Entry, bytes: Bytes, at: nat)
    requires Storable(e) && Stands(bytes, at, Frame(h, e)) && at + |Frame(h, e)| == |bytes| && at >= HEADER_LEN
    ensures LeadsBackTo(bytes, at)
  {
    hide Le, FromLe, EncodeEntry, Limit, Storable, Writable;
    var body := EncodeEntry(e);
    StandsSplit(bytes, at, body, Delimiter(h, body));
    StandsSplit(bytes, at + |body|, Le(|body|, 4), Le(h.checksum(body + Le(|body|, 4)), 8));
    WritableFits(e);
    Limits();
    LeRoundTrip(|body|, 4);
  }

  method BackFrom(cursor: MemoryDevice, dist: u32) returns (r: Result<nat>)
    modifies cursor`position
    ensures r == BackToSafety(old(cursor.position), dist)
    ensures r.Ok? ==> cursor.position == r.value
    ensures r.Err? ==> cursor.position == old(cursor.position)
  {
    var from := cursor.position;
    if from < |STORAGE_IDENTIFIER| + 1 + dist {
      return Err(DamagedStorage);
    }
    var p := cursor.Seek(Current(0 - dist));
    r := Ok(p);
  }

  method Boot(h: Hashing, cursor: MemoryDevice) returns (r: Result<Booted>)
    modifies cursor`position, cursor.buffer
    ensures old(cursor.buffer.bytes) == [] && cursor.readOnly ==> r == Err(PermissionDenied)
    ensures old(cursor.buffer.bytes) != [] || !cursor.readOnly ==> r == BootData(h, old(cursor.buffer.bytes))
    ensures r.Ok? ==> cursor.buffer.bytes == Formatted(old(cursor.buffer.bytes))
    ensures r.Ok? && old(cursor.buffer.bytes) == [] ==> cursor.buffer.bytes == [0x01, 0xF3, 0x33, 0x01]
    ensures r.Ok? && old(cursor.buffer.bytes) != [] ==> cursor.buffer.bytes == old(cursor.buffer.bytes)
    ensures r.Ok? ==> cursor.position == |cursor.buffer.bytes| == r.value.next
    ensures r.Err? ==> cursor.buffer.bytes == old(cursor.buffer.bytes)
  {
    hide ReadData, FromLe;
    var end := cursor.Seek(End(0));
    if end == 0 {
      var _ :- cursor.WriteAll(STORAGE_IDENTIFIER);
      var _ := cursor.WriteAll([STORAGE_VERSION]);
      assert cursor.buffer.bytes == HEADER;
    } else if end <= 3 {
      return Err(StorageIsNotForSlate);
    } else {
      var _ := cursor.Seek(Start(0));
      var magic := cursor.ReadExact(4);
      var buffer := magic.value;
      assert buffer[..3] == cursor.buffer.bytes[..3];
      if buffer[..3] != STORAGE_IDENTIFIER {
        return Err(StorageIsNotForSlate);
      } else if buffer[3] > STORAGE_VERSION {
        return Err(IncompatibleVersion(buffer[3] / 16, buffer[3] % 16));
      }
    }
    var firstPosition := cursor.position;
    var nextPosition := cursor.Seek(End(0));
    if nextPosition == firstPosition {
      return Ok(Booted(None, None, nextPosition));
    }
    var _ := cursor.Seek(Start(firstPosition));
    var first :- ReadDataFrom(h, cursor, firstPosition);
    var _ := cursor.Seek(End(0));
    // neither of these can fail: the first entry alone takes more than a delimiter
    var _ := BackFrom(cursor, DELIMITER_LEN);
    var o := cursor.ReadExact(4);
    var position :- BackFrom(cursor, (FromLe(o.value) + 4) % TWO32);
    var last :- ReadDataFrom(h, cursor, position);
    if cursor.position != nextPosition {
      return Err(DamagedStorage);
    }
    r := Ok(Booted(Some(first), Some(last), nextPosition));
  }

  /** The storage of a Slate: a device and the position at which its cursor stands. */
  class BlockStorage {
    const hashing: Hashing
    const device: MemoryDevice
    var position: nat

    /** The device cursor is where the storage believes it is. */
    ghost predicate InStep()
      reads this, device, device.buffer
    {
      device.position == position
    }

    constructor (hashing: Hashing, device: MemoryDevice)
      requires device.position == 0
      ensures this.hashing == hashing && this.device == device && position == 0 && InStep()
    {
      this.hashing := hashing;
      this.device := device;
      position := 0;
    }

    method Last() returns (r: Result<(Option<Entry>, nat)>)
      modifies this, device`position, device.buffer
      ensures old(device.buffer.bytes) == [] && device.readOnly ==> r == Err(PermissionDenied)
      ensures old(device.buffer.bytes) != [] || !device.readOnly ==>
        r == match BootData(hashing, old(device.buffer.bytes))
             case Ok(b) => Ok((b.last, b.next))
             case Err(e) => Err(e)
      ensures r.Ok? ==> InStep() && position == |device.buffer.bytes|
      ensures r.Ok? ==> device.buffer.bytes == Formatted(old(device.buffer.bytes))
      ensures r.Err? ==> device.buffer.bytes == old(device.buffer.bytes)
    {
      var b :- Boot(hashing, device);
      position := b.next;
      r := Ok((b.last, b.next));
    }

    method Put(at: nat, e: Entry) returns (r: Result<nat>)
      requires InStep() && Writable(e)
      modifies this, device`position, device.buffer
      ensures InStep()
      ensures device.readOnly ==> r == Err(PermissionDenied) && device.buffer.bytes == old(device.buffer.bytes)
      ensures device.readOnly ==> position == at
      ensures !device.readOnly ==> r == Ok(position) && position == at + |Frame(hashing, e)|
      ensures !device.readOnly ==> device.buffer.bytes == Overwrite(old(device.buffer.bytes), at, Frame(hashing, e))
    {
      if position != at {
        position := device.Seek(Start(at));
      }
      WritableFits(e);
      var w := new ChecksumWrite(hashing, device);
      var length :- WriteEntry(e, w);
      var more := w.WriteDelimiter();
      length := length + more.value;
      position := position + length;
      r := Ok(position);
    }

    method Truncate(at: nat) returns (r: Result<bool>)
      requires InStep()
      modifies this, device`position, device.buffer
      ensures device.readOnly ==> r == Err(PermissionDenied)
      ensures !device.readOnly ==> r == Ok(at < |old(device.buffer.bytes)|)
      ensures r == Ok(true) ==> device.buffer.bytes == old(device.buffer.bytes)[..at] && position == at
      ensures r != Ok(true) ==> device.buffer.bytes == old(device.buffer.bytes) && position == old(position)
      ensures InStep()
    {
      var cut :- device.Truncate(at);
      if cut {
        position := at;
      }
      r := Ok(cut);
    }

    method Reader() returns (reader: MemoryDevice)
      ensures fresh(reader) && reader.buffer == device.buffer && reader.readOnly && reader.position == 0
    {
      reader := device.CloneDevice();
    }
  }
}
