/** Slate itself (src/lib.rs): an append-only Merkle tree kept in a log. Its whole state, the cache, the
    position and every byte of the log, is a function of the payloads appended so far. */
module SlateModel {
  import opened Words
  import opened Errors
  import opened Merkle
  import opened Entries
  import opened Device
  import opened Serialize
  import opened Checksum
  import opened Storage
  import opened Journal
  import opened Hops
  import opened Caching
  import opened Querying
  import Shape
  import Formula

  /** The bytes on the device of a Slate holding xs. */
  function LogBytesOf(h: Hashing, xs: seq<Bytes>): Bytes
    requires Fits(xs)
  {
    LogIsValid(h, xs);
    LogBytes(h, LogOf(h, xs))
  }

  /** A revision frozen for queries: its cache, and the storage it goes on reading from. */
  datatype Snapshot = Snapshot(cache: Cache, storage: BlockStorage)

  class Slate {
    const hashing: Hashing
    const storage: BlockStorage
    var position: nat
    var cache: Cache
    /** Everything appended and not truncated, in order. */
    ghost var payloads: seq<Bytes>

    ghost predicate Valid()
      reads this, storage, storage.device, storage.device.buffer
    {
      && storage.hashing == hashing && storage.InStep() && storage.position == position
      && Fits(payloads) && storage.device.buffer.bytes == LogBytesOf(hashing, payloads)
      && position == Position(payloads, |payloads| + 1)
      && cache == CacheOf(hashing, payloads, cache.level)
    }

    /** A Slate on what was found in a storage; xs is what it is taken for. */
    constructor (hashing: Hashing, storage: BlockStorage, position: nat, cache: Cache, ghost xs: seq<Bytes>)
      ensures payloads == xs && this.storage == storage && this.hashing == hashing
      ensures this.cache == cache && this.position == position
    {
      this.hashing := hashing;
      this.storage := storage;
      this.position := position;
      this.cache := cache;
      this.payloads := xs;
    }

    method Root() returns (r: Option<MetaInfo>)
      requires Valid()
      ensures r == if payloads == [] then None else
        var address := Address(|payloads|, Shape.Height(|payloads|), Position(payloads, |payloads|));
        Some(MetaInfo(address, MerkleHash(hashing, payloads)))
    {
      hide Position;
      NewestIsCached(hashing, payloads, cache.level);
      if payloads != [] {
        RootOfEntry(hashing, payloads);
      }
      r := cache.Root();
    }

    /** The inodes of the next entry: each joins a perfect-subtree root to what lies to its right. */
    method BuildINodes(enode: ENode, shape: seq<Shape.INode>, ghost xs: seq<Bytes>) returns (inodes: seq<INode>)
      requires Valid() && Fits(xs) && |xs| == |payloads| + 1 && xs[..|payloads|] == payloads
      requires enode == EntryOf(hashing, xs, |xs|).enode && shape == Shape.Inodes(|xs|)
      ensures inodes == EntryOf(hashing, xs, |xs|).inodes
    {
      hide Position, NodeHash, Low, Pow2, BitLen, CacheOf, LogBytesOf;
      hide Shape.Inodes, Shape.IsNode, Shape.LeftOf, Shape.RightOf;
      ghost var i := |xs|;
      PositionPrefix(xs, payloads, i);
      inodes := [];
      var rightHash := enode.meta.hash;
      InodesWithin(i);
      LeafHash(hashing, xs, i);
      for k := 0 to |shape|
        invariant inodes == INodesOf(hashing, xs, shape)[..k]
        invariant rightHash == SpineHash(hashing, xs, i, k)
      {
        var n := shape[k];
        LeftMeta(hashing, xs, cache.level, k);
        SpineStep(hashing, xs, i, k);
        assert n.node.i == i && n.right.i == i && n.right.j <= n.left.j < n.node.j;
        // the root is in the cache: its panic is not reached
        var left := cache.pbstRoots[n.left.i];
        var right := Address(n.right.i, n.right.j, position);
        var hash := hashing.Combine(left.hash, n.node.j, rightHash);
        var node := MetaInfo(Address(n.node.i, n.node.j, position), hash);
        inodes := inodes + [INode(node, left.address, right)];
        rightHash := hash;
      }
      EntryParts(hashing, xs, i);
    }

    /** Appends a payload. The root it returns has the Merkle hash of everything appended. */
    method Append(value: Bytes) returns (r: Result<MetaInfo>)
      requires Valid()
      requires |value| <= 0x7FFF_FFFF ==> Fits(payloads + [value])
      modifies this, storage, storage.device`position, storage.device.buffer
      ensures Valid()
      ensures |value| > 0x7FFF_FFFF ==> r == Err(TooLargePayload(|value|))
      ensures |value| <= 0x7FFF_FFFF && storage.device.readOnly ==> r == Err(PermissionDenied)
      ensures r.Err? ==> payloads == old(payloads) && cache == old(cache) && position == old(position)
      ensures r.Err? ==> storage.device.buffer.bytes == old(storage.device.buffer.bytes)
      ensures |value| <= 0x7FFF_FFFF && !storage.device.readOnly ==>
        && payloads == old(payloads) + [value] && cache.level == old(cache.level)
        && var address := Address(|payloads|, Shape.Height(|payloads|), old(position));
           r == Ok(MetaInfo(address, MerkleHash(hashing, payloads)))
    {
      hide Position, EntryOf, CacheOf, LogBytesOf, MerkleHash, Frame, Storable, Overwrite;
      hide Shape.Inodes, Shape.Roots, Shape.Joints;
      if |value| > MAX_PAYLOAD_SIZE {
        return Err(TooLargePayload(|value|));
      }
      ghost var xs := payloads + [value];
      var at := position;
      NextIndex(hashing, payloads, cache.level);
      var i := match cache.Root() case Some(node) => node.address.i + 1 case None => 1;
      FitsInWords(xs, i);
      var enode := ENode(MetaInfo(Address(i, 0, at), hashing.FromBytes(0, value)), value);
      NewEnode(hashing, payloads, value);
      var model := Formula.NewModel(i);
      var shape := Formula.ModelInodes(model);
      var inodes := BuildINodes(enode, shape, xs);
      var entry := Entry(enode, inodes);
      assert entry == EntryOf(hashing, xs, i);
      EntryIsStorable(hashing, xs, i);
      LogGrows(hashing, payloads, value);
      var next :- storage.Put(position, entry);
      position := next;
      CacheLevel(hashing, xs, cache.level);
      var migrated := Migrate(cache, entry, model, hashing, xs);
      cache := migrated;
      payloads := xs;
      RootOfEntry(hashing, xs);
      var root := entry.Root();
      r := Ok(MetaInfo(Address(i, root.address.j, at), root.hash));
    }

    method TakeSnapshot() returns (s: Snapshot)
      requires Valid()
      ensures s == Snapshot(CacheOf(hashing, payloads, cache.level), storage)
    {
      s := Snapshot(cache, storage);
    }

    /** Finds the entry of a revision, following left children from the newest entry. */
    method LoadEntry(i: u64) returns (r: Result<Entry>)
      requires Valid()
      ensures r == if 0 < i <= |payloads| then Ok(EntryOf(hashing, payloads, i)) else Err(InvalidArgument)
    {
      hide EntryOf, Holds, CacheOf, HopsTo, Position, LogBytesOf, Reach;
      RevisionIs(hashing, payloads, cache.level);
      if i == 0 || i > cache.Revision() {
        return Err(InvalidArgument);
      }
      HoldsOwn(hashing, payloads, storage.device.buffer.bytes);
      CachedEntry(hashing, payloads, cache.level, i);
      if i in cache.entries {
        return Ok(cache.entries[i]);
      }
      NewestIsCached(hashing, payloads, cache.level);
      var entry := cache.entries[cache.Revision()];
      var reader := storage.Reader();
      ghost var p := |payloads|;
      while entry.Index() != i
        invariant i <= p <= |payloads| && entry.Index() == p && entry == EntryOf(hashing, payloads, p)
        invariant reader.buffer == storage.device.buffer && fresh(reader)
        decreases p
      {
        var left := LeftTowards(entry, i, p);
        CachedEntry(hashing, payloads, cache.level, left.i);
        EntryAddress(hashing, payloads, left.i);
        if left.i in cache.entries {
          entry := cache.entries[left.i];
        } else {
          CheckedEntry(hashing, payloads, left.i, reader.buffer.bytes);
          var read := ReadEntryChecked(hashing, reader, left.position, left.i);
          entry := read.value;
        }
        p := left.i;
      }
      r := Ok(entry);
    }

    /** The left child of an entry below which index i lies: there always is one. */
    method LeftTowards(entry: Entry, i: u64, ghost p: nat) returns (left: Address)
      requires Fits(payloads) && 0 < i < p <= |payloads| && entry == EntryOf(hashing, payloads, p)
      ensures i <= left.i < p && left.position == Position(payloads, left.i)
    {
      hide EntryOf, HopsTo, Position, Shape.Inodes, Shape.IsPerfect;
      LeftsPositive(hashing, payloads, p);
      ghost var s := Shape.Inodes(p);
      var t := 0;
      while t < |entry.inodes|
        invariant t <= |entry.inodes|
        invariant forall l :: 0 <= l < t ==> !Shape.Covers(s[l].left, i)
      {
        var inode := entry.inodes[t];
        LeftAddress(hashing, payloads, p, t);
        if Formula.Contains(inode.left.i, inode.left.j, i) {
          return inode.left;
        }
        t := t + 1;
      }
      SomeLeftCovers(p, i);
      assert false;
    }

    /** A snapshot of an earlier revision: as if nothing had been appended since. */
    method SnapshotAt(revision: u64) returns (r: Result<Snapshot>)
      requires Valid()
      ensures 0 < revision <= |payloads| ==>
        r == Ok(Snapshot(CacheOf(hashing, payloads[..revision], cache.level), storage))
      ensures revision == 0 || revision > |payloads| ==> r == Err(InvalidArgument)
    {
      hide EntryOf, Holds, CacheOf, Position, LogBytesOf;
      var entry :- LoadEntry(revision);
      ghost var xs := payloads[..revision];
      HoldsPrefix(hashing, payloads, revision);
      assert payloads[..revision] == xs[..revision];
      EntryPrefix(hashing, payloads, xs, revision);
      LoadIs(hashing, xs, cache.level, storage.device.buffer.bytes);
      var c := Load(hashing, storage, cache.level, entry);
      r := Ok(Snapshot(c.value, storage));
    }

    method FindEntry(i: u64) returns (found: Option<Entry>)
      requires Valid()
      ensures found == if 0 < i <= |payloads| then Some(EntryOf(hashing, payloads, i)) else None
    {
      hide EntryOf, CacheOf, Position, LogBytesOf, LogBytes, BootData, HopsTo;
      HoldsOwn(hashing, payloads, storage.device.buffer.bytes);
      var reader := storage.Reader();
      var query := new Query(hashing, reader, cache, payloads);
      var read := query.ReadEntry(i);
      found := read.value;
    }

    /** Deletes entry i and everything after it. */
    method Truncate(i: u64) returns (r: Result<bool>)
      requires Valid()
      modifies this, storage, storage.device`position, storage.device.buffer
      ensures 0 < i <= |old(payloads)| && storage.device.readOnly ==> r == Err(PermissionDenied)
      ensures 0 < i <= |old(payloads)| && !storage.device.readOnly ==>
        r == Ok(true) && payloads == old(payloads)[..i - 1] && cache.level == old(cache.level)
      ensures i == 0 || i > |old(payloads)| ==> r == Ok(false)
      ensures r != Ok(true) ==> payloads == old(payloads) && cache == old(cache) && position == old(position)
      ensures r != Ok(true) ==> storage.device.buffer.bytes == old(storage.device.buffer.bytes)
      ensures Valid()
    {
      hide EntryOf, CacheOf, Position, LogBytesOf, LogBytes, BootData, Formatted;
      var found := FindEntry(i);
      if found == None {
        return Ok(false);
      }
      var entry := found.value;
      EntryAddress(hashing, payloads, i);
      LogCut(hashing, payloads, i - 1);
      var _ :- storage.Truncate(entry.enode.meta.address.position);
      ghost var xs := payloads[..i - 1];
      CacheLevel(hashing, xs, cache.level);
      MetadataOfLog(hashing, xs, cache.level, storage.device.buffer.bytes);
      var loaded := LoadMetadata(hashing, storage, cache.level);
      PositionPrefix(payloads, xs, i);
      assert loaded.value.1 == entry.enode.meta.address.position;
      cache := loaded.value.0;
      position := loaded.value.1;
      payloads := xs;
      r := Ok(true);
    }
  }

  /** The cache and the next position found on any device whatever. */
  function MetadataOf(h: Hashing, bytes: Bytes, level: nat): Result<(Cache, nat)> {
    var b :- BootData(h, bytes);
    match b.last
    case None => Ok((Cache(level, None, map[], map[]), b.next))
    case Some(last) =>
      StorableIsIndexed(last);
      var c :- LoadData(h, bytes, level, last);
      Ok((c, b.next))
  }

  /** What opening any device comes to: the error of booting it, an empty cache, or what loading the cache
      of its last entry comes to. */
  lemma MetadataOutcome(h: Hashing, bytes: Bytes, level: nat)
    ensures match BootData(h, bytes)
      case Err(e) => MetadataOf(h, bytes, level) == Err(e)
      case Ok(Booted(_, None, next)) => MetadataOf(h, bytes, level) == Ok((Cache(level, None, map[], map[]), next))
      case Ok(Booted(_, Some(last), next)) =>
        Indexed(last) && match LoadData(h, bytes, level, last)
        case Err(e) => MetadataOf(h, bytes, level) == Err(e)
        case Ok(c) => MetadataOf(h, bytes, level) == Ok((c, next))
  {
    hide BootData, LoadData, Storable, Indexed;
    var b := BootData(h, bytes);
    if b.Ok? && b.value.last.Some? {
      StorableIsIndexed(b.value.last.value);
    }
  }

  /** On the log of xs that is the cache of xs and the position of the next entry. */
  lemma MetadataOfLog(h: Hashing, xs: seq<Bytes>, level: nat, bytes: Bytes)
    requires Fits(xs) && Formatted(bytes) == LogBytesOf(h, xs)
    ensures MetadataOf(h, bytes, level) == Ok((CacheOf(h, xs, level), Position(xs, |xs| + 1)))
  {
    hide EntryOf, CacheOf, Position, LogBytes, BootData, LoadData, Storable, Indexed;
    BootOf(h, xs, bytes);
    if xs == [] {
      EmptyCache(h, xs, level);
    } else {
      NotEmpty(h, xs, bytes);
      HoldsOwn(h, xs, bytes);
      LoadIs(h, xs, level, bytes);
    }
  }

  /** The log of any payload is more than a header. */
  lemma NotEmpty(h: Hashing, xs: seq<Bytes>, bytes: Bytes)
    requires Fits(xs) && xs != [] && Formatted(bytes) == LogBytesOf(h, xs)
    ensures bytes != []
  {
    hide Position, EntryOf, LogBytes;
    LogIsValid(h, xs);
    OffsetsGrow(h, LogOf(h, xs), 0, |xs|);
  }

  /** Boots a storage: the cache of what it holds and the position of the next entry. */
  method LoadMetadata(h: Hashing, storage: BlockStorage, level: nat) returns (r: Result<(Cache, nat)>)
    requires storage.hashing == h
    modifies storage, storage.device`position, storage.device.buffer
    ensures old(storage.device.buffer.bytes) == [] && storage.device.readOnly ==> r == Err(PermissionDenied)
    ensures old(storage.device.buffer.bytes) != [] || !storage.device.readOnly ==>
      r == MetadataOf(h, old(storage.device.buffer.bytes), level)
    ensures r.Ok? ==> storage.InStep() && storage.position == r.value.1
    ensures r.Ok? ==> storage.device.buffer.bytes == Formatted(old(storage.device.buffer.bytes))
    ensures r.Err? ==> storage.device.buffer.bytes == old(storage.device.buffer.bytes)
  {
    hide BootData, LoadData, Storable, Indexed;
    BootedSomewhere(h, storage.device.buffer.bytes);
    var booted :- storage.Last();
    var (last, position) := booted;
    if last == None {
      r := Ok((Cache(level, None, map[], map[]), position));
    } else {
      StorableIsIndexed(last.value);
      var c :- Load(h, storage, level, last.value);
      r := Ok((c, position));
    }
  }

  lemma BootedSomewhere(h: Hashing, bytes: Bytes)
    ensures BootData(h, bytes).Ok? && BootData(h, bytes).value.last.Some? ==> bytes != []
    ensures BootData(h, bytes).Ok? ==> BootData(h, bytes).value.next == |Formatted(bytes)|
  {
    hide ReadData;
  }

  /** Opens a Slate on any device. If that is empty, or holds the log of xs, the Slate holds xs. */
  method Open(h: Hashing, storage: BlockStorage, level: nat, ghost xs: seq<Bytes>) returns (r: Result<Slate>)
    requires storage.hashing == h
    modifies storage, storage.device`position, storage.device.buffer
    ensures old(storage.device.buffer.bytes) == [] && storage.device.readOnly ==> r == Err(PermissionDenied)
    ensures old(storage.device.buffer.bytes) != [] || !storage.device.readOnly ==>
      match MetadataOf(h, old(storage.device.buffer.bytes), level)
      case Err(e) => r == Err(e)
      case Ok((c, p)) => r.Ok? && r.value.cache == c && r.value.position == p
    ensures r.Ok? ==> fresh(r.value) && r.value.storage == storage && r.value.hashing == h
    ensures IsLog(h, xs, old(storage.device.buffer.bytes)) && r.Ok? ==>
      r.value.Valid() && r.value.payloads == xs && r.value.cache.level == level
    ensures IsLog(h, xs, old(storage.device.buffer.bytes)) && !storage.device.readOnly ==> r.Ok?
    ensures IsLog(h, xs, old(storage.device.buffer.bytes)) && old(storage.device.buffer.bytes) != [] ==> r.Ok?
  {
    hide CacheOf, Position, LogBytesOf, MetadataOf;
    CacheLevel(h, xs, level);
    if IsLog(h, xs, storage.device.buffer.bytes) {
      MetadataOfLog(h, xs, level, storage.device.buffer.bytes);
    }
    var loaded :- LoadMetadata(h, storage, level);
    var slate := new Slate(h, storage, loaded.1, loaded.0, xs);
    r := Ok(slate);
  }

  /** The bytes are the log of xs, or there are none yet and xs is empty. */
  ghost predicate IsLog(h: Hashing, xs: seq<Bytes>, bytes: Bytes) {
    Fits(xs) && Formatted(bytes) == LogBytesOf(h, xs)
  }

  /** Starts a query on a snapshot. */
  method StartQuery(h: Hashing, s: Snapshot, ghost xs: seq<Bytes>) returns (query: Query)
    requires Holds(h, xs, s.storage.device.buffer.bytes) && s.cache == CacheOf(h, xs, s.cache.level)
    ensures fresh(query) && fresh(query.cursor) && query.Valid() && query.payloads == xs
    ensures query.cursor.buffer == s.storage.device.buffer && query.hashing == h
  {
    hide CacheOf, Holds;
    var reader := s.storage.Reader();
    query := new Query(h, reader, s.cache, xs);
  }

  // ----- lemmas

  lemma CacheLevel(h: Hashing, xs: seq<Bytes>, level: nat)
    ensures CacheOf(h, xs, level).level == level
  {
  }

  lemma EmptyCache(h: Hashing, xs: seq<Bytes>, level: nat)
    ensures xs == [] ==> CacheOf(h, xs, level) == Cache(level, None, map[], map[])
  {
  }

  lemma LogLength(h: Hashing, xs: seq<Bytes>)
    requires Fits(xs)
    ensures |LogBytesOf(h, xs)| == Position(xs, |xs| + 1)
  {
    hide LogBytes, Position;
    LogIsValid(h, xs);
  }

  lemma HoldsOwn(h: Hashing, xs: seq<Bytes>, bytes: Bytes)
    requires Fits(xs) && bytes == LogBytesOf(h, xs)
    ensures Holds(h, xs, bytes)
  {
    hide LogBytes, Position;
    LogIsValid(h, xs);
  }

  /** A log also holds every earlier revision. */
  lemma HoldsPrefix(h: Hashing, xs: seq<Bytes>, n: nat)
    requires Fits(xs) && n <= |xs|
    ensures Holds(h, xs[..n], LogBytesOf(h, xs))
  {
    hide LogBytes, Position, EntryOf;
    LogOfPrefix(h, xs, n);
  }

  lemma NextIndex(h: Hashing, xs: seq<Bytes>, level: nat)
    ensures var root := CacheOf(h, xs, level).Root();
      if xs == [] then root == None else root.Some? && root.value.address.i == |xs|
  {
    hide Position, EntryOf, RootMetasOf, Shape.Inodes;
    NewestIsCached(h, xs, level);
    if xs != [] {
      RootOfEntry(h, xs);
    }
  }

  /** The root recorded in the last entry is that of the whole tree. */
  lemma RootOfEntry(h: Hashing, xs: seq<Bytes>)
    requires xs != []
    ensures EntryOf(h, xs, |xs|).Root()
         == MetaInfo(Address(|xs|, Shape.Height(|xs|), Position(xs, |xs|)), MerkleHash(h, xs))
  {
    hide Position, NodeHash, MerkleHash, Shape.Inodes, Shape.IsNode, Shape.LeftOf, Shape.RightOf, Low, Pow2, BitLen;
    var n := |xs|;
    RootHash(h, xs);
    RootOnSpine(h, xs, n);
    InodeOnSpine(h, xs, n, |Shape.Inodes(n)|);
    EnodeMeta(h, xs, n);
  }

  lemma EnodeMeta(h: Hashing, xs: seq<Bytes>, i: nat)
    requires 0 < i <= |xs|
    ensures EntryOf(h, xs, i).enode == ENode(MetaOf(h, xs, Shape.Addr(i, 0)), xs[i - 1])
  {
  }

  lemma NewEnode(h: Hashing, xs: seq<Bytes>, value: Bytes)
    ensures var ys := xs + [value];
      var meta := MetaInfo(Address(|ys|, 0, Position(xs, |xs| + 1)), h.FromBytes(0, value));
      EntryOf(h, ys, |ys|).enode == ENode(meta, value)
  {
    hide Position, Shape.Inodes;
    var ys := xs + [value];
    NodeHashLeaf(h, ys, |ys|);
    PositionPrefix(xs, ys, |ys|);
  }

  lemma LeafHash(h: Hashing, xs: seq<Bytes>, i: nat)
    requires 0 < i <= |xs|
    ensures EntryOf(h, xs, i).enode.meta.hash == SpineHash(h, xs, i, 0)
  {
  }

  lemma EntryParts(h: Hashing, xs: seq<Bytes>, i: nat)
    requires 0 < i <= |xs|
    ensures forall k :: 0 <= k < |Shape.Inodes(i)| ==> Within(Shape.Inodes(i)[k], |xs|)
    ensures EntryOf(h, xs, i).inodes == INodesOf(h, xs, Shape.Inodes(i))
  {
    InodesWithin(i);
  }

  /** The hash of the node of generation i that comes before its inode k. */
  function SpineHash(h: Hashing, xs: seq<Bytes>, i: nat, k: nat): Hash
    requires 0 < i <= |xs| && k <= |Shape.Inodes(i)|
  {
    NodeHash(h, xs, i, Shape.HeightBelow(Shape.Inodes(i), k))
  }

  /** Joining the left child of inode k to the node before it gives inode k. */
  lemma SpineStep(h: Hashing, xs: seq<Bytes>, i: nat, k: nat)
    requires 0 < i <= |xs| && k < |Shape.Inodes(i)|
    ensures var d := Shape.Inodes(i)[k];
      && Within(d, |xs|) && d.node.i == i && d.right.i == i && d.right.j <= d.left.j < d.node.j
      && SpineHash(h, xs, i, k + 1) == NodeHash(h, xs, d.node.i, d.node.j)
      && NodeHash(h, xs, d.node.i, d.node.j)
           == h.Combine(NodeHash(h, xs, d.left.i, d.left.j), d.node.j, SpineHash(h, xs, i, k))
  {
    hide NodeHash, Low, Pow2, BitLen, Shape.IsNode, Shape.Spine, Shape.LeftOf, Shape.RightOf;
    InodesWithin(i);
    Shape.RootIsNode(i);
    Shape.SpineNodes(i, Shape.Height(i));
    Shape.NodeSplit(i, Shape.Inodes(i)[k].node.j);
    NodeHashSplit(h, xs, i, Shape.Inodes(i)[k].node.j);
  }

  /** The left child of every inode of the next entry is among the cached roots of this revision. */
  lemma LeftMeta(h: Hashing, xs: seq<Bytes>, level: nat, k: nat)
    requires xs != [] && k < |Shape.Inodes(|xs|)|
    ensures var c, d := CacheOf(h, xs[..|xs| - 1], level), Shape.Inodes(|xs|)[k];
      0 < d.left.i < |xs| && d.left.i in c.pbstRoots && c.pbstRoots[d.left.i] == MetaOf(h, xs, d.left)
  {
    hide MetaOf, MetasOf, EntriesOf, Shape.Inodes, Shape.Roots, Shape.IsPerfect, Formula.ModelOf;
    var n, ys := |xs|, xs[..|xs| - 1];
    InodesWithin(n);
    Shape.LeftsAreRoots(n);
    RootsWithin(n - 1);
    var roots := Shape.Roots(n - 1);
    MetasAt(h, ys, roots);
    var t := |roots| - 1 - k;
    assert Shape.Inodes(n)[k].left == roots[t];
    MetaPrefix(h, xs, ys, n - 1, roots[t]);
  }

  /** Writing the entry of one more payload at the end of the log gives the log of all of them. */
  lemma LogGrows(h: Hashing, xs: seq<Bytes>, value: Bytes)
    requires Fits(xs) && Fits(xs + [value])
    ensures var ys := xs + [value]; var bytes := LogBytesOf(h, xs);
      && Storable(EntryOf(h, ys, |ys|)) && |bytes| == Position(xs, |xs| + 1)
      && Overwrite(bytes, |bytes|, Frame(h, EntryOf(h, ys, |ys|))) == LogBytesOf(h, ys)
      && |bytes| + |Frame(h, EntryOf(h, ys, |ys|))| == Position(ys, |ys| + 1) == |LogBytesOf(h, ys)|
  {
    hide Position, EntryOf, LogBytes, Frame, Storable;
    var ys := xs + [value];
    assert ys[..|xs|] == xs;
    LogIsValid(h, xs);
    LogIsValid(h, ys);
    LogOfPrefix(h, ys, |xs|);
    LastFrame(h, LogOf(h, ys));
    OverwriteAtEnd(LogBytesOf(h, xs), Frame(h, EntryOf(h, ys, |ys|)));
  }

  /** Cutting the log at the position of an entry leaves the log of the payloads before it. */
  lemma LogCut(h: Hashing, xs: seq<Bytes>, n: nat)
    requires Fits(xs) && n < |xs|
    ensures var bytes := LogBytesOf(h, xs); var at := Position(xs, n + 1);
      Fits(xs[..n]) && 0 < at < |bytes| && Formatted(bytes[..at]) == bytes[..at] == LogBytesOf(h, xs[..n])
  {
    hide Position, EntryOf, LogBytes;
    LogIsValid(h, xs);
    LogOfPrefix(h, xs, n);
    OffsetsGrow(h, LogOf(h, xs), n, |xs|);
  }

  /** Booting the log of xs finds the entry of its last payload, if it has any. */
  lemma BootOf(h: Hashing, xs: seq<Bytes>, bytes: Bytes)
    requires Fits(xs) && Formatted(bytes) == LogBytesOf(h, xs)
    ensures match BootData(h, bytes)
      case Err(_) => false
      case Ok(b) =>
        && b.last == (if xs == [] then None else Some(EntryOf(h, xs, |xs|)))
        && b.next == Position(xs, |xs| + 1)
  {
    hide Position, EntryOf, LogBytes, BootData;
    LogIsValid(h, xs);
    BootLogged(h, LogOf(h, xs));
    EmptyLog(h);
    FirstPosition(xs);
    if bytes == [] {
      BootNothing(h);
      if xs != [] {
        OffsetsGrow(h, LogOf(h, xs), 0, |xs|);
      }
    }
  }

  lemma BootNothing(h: Hashing)
    ensures BootData(h, []) == Ok(Booted(None, None, HEADER_LEN))
  {
  }

  lemma FirstPosition(xs: seq<Bytes>)
    ensures Position(xs, 1) == HEADER_LEN
  {
  }

  lemma CachedEntry(h: Hashing, xs: seq<Bytes>, level: nat, i: nat)
    ensures var c := CacheOf(h, xs, level);
      i in c.entries ==> 0 < i <= |xs| && c.entries[i] == EntryOf(h, xs, i)
  {
    hide EntryOf, RootMetasOf, Formula.ModelOf;
  }
}
