/** The cache of a revision (src/cache.rs): the metadata of its perfect-subtree roots and the entries
    within some hops of the newest one. It is either rebuilt from storage (Load) or carried on from the
    revision before (Migrate); both must give CacheOf. */
module Caching {
  import opened Words
  import opened Errors
  import opened Merkle
  import opened Entries
  import opened Device
  import opened Serialize
  import opened Storage
  import opened Journal
  import opened Hops
  import Shape
  import Formula

  datatype Cache = Cache(level: nat, model: Option<Formula.Model>, entries: map<nat, Entry>,
                         pbstRoots: map<nat, MetaInfo>)
  {
    function Revision(): nat {
      if model.Some? then model.value.n else 0
    }

    function LastEntry(): Option<Entry> {
      if Revision() in entries then Some(entries[Revision()]) else None
    }

    function Root(): Option<MetaInfo> {
      match LastEntry()
      case None => None
      case Some(e) => Some(e.Root())
    }
  }

  // ----- what the cache of a payload sequence is

  function EntriesOf(h: Hashing, xs: seq<Bytes>, s: set<nat>): map<nat, Entry> {
    map i | i in s && 0 < i <= |xs| :: EntryOf(h, xs, i)
  }

  /** The metadata of the given nodes by index. */
  function MetasOf(h: Hashing, xs: seq<Bytes>, s: seq<Shape.Addr>): map<nat, MetaInfo>
    requires forall k :: 0 <= k < |s| ==> 0 < s[k].i <= |xs|
  {
    if s == [] then map[]
    else MetasOf(h, xs, s[..|s| - 1])[s[|s| - 1].i := MetaOf(h, xs, s[|s| - 1])]
  }

  function RootMetasOf(h: Hashing, xs: seq<Bytes>): map<nat, MetaInfo> {
    RootsWithin(|xs|);
    MetasOf(h, xs, Shape.Roots(|xs|))
  }

  /** The cache of the revision that xs has produced. */
  function CacheOf(h: Hashing, xs: seq<Bytes>, level: nat): Cache {
    if xs == [] then Cache(level, None, map[], map[])
    else Cache(level, Some(Formula.ModelOf(|xs|)), EntriesOf(h, xs, Reach(|xs|, level)), RootMetasOf(h, xs))
  }

  lemma RootsWithin(n: nat)
    ensures var s := Shape.Roots(n);
      && (forall k :: 0 <= k < |s| ==> 0 < s[k].i <= n && Shape.IsPerfect(s[k]))
      && (forall k :: 0 <= k < |s| - 1 ==> s[k].i < n)
      && (forall k, l :: 0 <= k < l < |s| ==> s[k].i < s[l].i)
      && (n > 0 ==> s != [] && s[|s| - 1].i == n)
  {
    hide Low, Pow2, Shape.IsPerfect, Shape.RootsBelow;
    var s := Shape.Roots(n);
    Shape.RootsTile(n, BitLen(n));
    Shape.RootsAreTheTiling(n, s);
    Shape.TilesOrdered(s, 0, n);
  }

  lemma {:induction false} MetasAt(h: Hashing, xs: seq<Bytes>, s: seq<Shape.Addr>)
    requires forall k :: 0 <= k < |s| ==> 0 < s[k].i <= |xs|
    requires forall k, l :: 0 <= k < l < |s| ==> s[k].i < s[l].i
    ensures forall k :: 0 <= k < |s| ==> s[k].i in MetasOf(h, xs, s) && MetasOf(h, xs, s)[s[k].i] == MetaOf(h, xs, s[k])
    ensures forall i :: i in MetasOf(h, xs, s) ==> exists k :: 0 <= k < |s| && s[k].i == i
    decreases |s|
  {
    hide MetaOf;
    if s != [] {
      var p := s[..|s| - 1];
      MetasAt(h, xs, p);
      forall i | i in MetasOf(h, xs, s)
        ensures exists k :: 0 <= k < |s| && s[k].i == i
      {
        if i in MetasOf(h, xs, p) {
          var k :| 0 <= k < |p| && p[k].i == i;
          assert s[k].i == i;
        } else {
          assert s[|s| - 1].i == i;
        }
      }
      forall k | 0 <= k < |s|
        ensures s[k].i in MetasOf(h, xs, s) && MetasOf(h, xs, s)[s[k].i] == MetaOf(h, xs, s[k])
      {
        if k < |p| {
          assert p[k] == s[k];
        }
      }
    }
  }

  /** The metadata of b_{i,j} is found in the entry of i, and nothing else is. */
  lemma MetaOfNode(h: Hashing, xs: seq<Bytes>, i: nat, j: nat)
    requires 0 < i <= |xs| && Shape.IsNode(i, j)
    ensures EntryOf(h, xs, i).Meta(j) == Some(MetaOf(h, xs, Shape.Addr(i, j)))
    ensures j > 0 ==> EntryOf(h, xs, i).InodeAt(j).Some?
    ensures j > 0 ==> EntryOf(h, xs, i).InodeAt(j).value.meta == MetaOf(h, xs, Shape.Addr(i, j))
  {
    hide Low, Pow2, BitLen, Shape.Spine, Shape.IsNode, Shape.LeftOf, Shape.RightOf, NodeHash, Position, Shape.Inodes;
    if j > 0 {
      var e := EntryOf(h, xs, i);
      InodesWithin(i);
      var k := Shape.NodeIsInode(i, j);
      assert e.inodes[k] == INodeOf(h, xs, Shape.Inodes(i)[k]);
      e.FindInRange(j, 0);
      var f := e.Find(j, 0);
      assert e.inodes[f] == INodeOf(h, xs, Shape.Inodes(i)[f]);
    }
  }

  // ----- reading entries from storage

  /** Everything stored is as xs dictates, as far as xs goes: the storage may hold more after that. */
  ghost predicate Holds(h: Hashing, xs: seq<Bytes>, bytes: Bytes) {
    Fits(xs) && AllStorable(LogOf(h, xs)) && LogBytes(h, LogOf(h, xs)) <= bytes
  }

  /** The entry at a position, if it is the one with the expected index. */
  function ReadChecked(h: Hashing, bytes: Bytes, position: nat, index: nat): Result<Entry> {
    var data :- ReadData(h, bytes, position);
    if data.0.Index() == index then Ok(data.0) else Err(InternalStateInconsistency)
  }

  method ReadEntryChecked(h: Hashing, reader: MemoryDevice, position: nat, index: nat) returns (r: Result<Entry>)
    modifies reader`position, reader`readCount
    ensures r == ReadChecked(h, reader.buffer.bytes, position, index)
    ensures reader.readCount == old(reader.readCount) + 1
  {
    hide ReadData;
    var e :- ReadAt(h, reader, position);
    if e.Index() != index {
      return Err(InternalStateInconsistency);
    }
    r := Ok(e);
  }

  /** Reading fails as the storage does; an entry of another index is an inconsistency. */
  lemma CheckedOutcome(h: Hashing, bytes: Bytes, position: nat, index: nat)
    ensures match ReadData(h, bytes, position)
      case Err(e) => ReadChecked(h, bytes, position, index) == Err(e)
      case Ok((entry, _)) =>
        ReadChecked(h, bytes, position, index)
          == if entry.enode.meta.address.i == index then Ok(entry) else Err(InternalStateInconsistency)
  {
    hide ReadData;
  }

  /** At the address of an entry that entry is found: the check of the index does not fail. */
  lemma CheckedEntry(h: Hashing, xs: seq<Bytes>, i: nat, bytes: Bytes)
    requires Holds(h, xs, bytes) && 0 < i <= |xs|
    ensures ReadChecked(h, bytes, Position(xs, i), i) == Ok(EntryOf(h, xs, i))
  {
    hide ReadData, EntryOf, LogBytes, Position;
    ReadEntryOf(h, xs, i, bytes);
    EntryAddress(h, xs, i);
  }

  /** The addresses e_i holds, in the order of its inodes. */
  function LeftAddresses(e: Entry): (r: seq<Address>)
    ensures |r| == |e.inodes|
    ensures forall k :: 0 <= k < |r| ==> r[k] == e.inodes[k].left
  {
    seq(|e.inodes|, k requires 0 <= k < |e.inodes| => e.inodes[k].left)
  }

  /** The entries at addrs, as far as level allows to follow them, were added to before. */
  ghost predicate Loaded(h: Hashing, xs: seq<Bytes>, before: map<nat, Entry>, q: seq<nat>, level: nat,
                         after: map<nat, Entry>)
  {
    after == before + EntriesOf(h, xs, ReachAll(q, level))
  }

  /** The addresses of the entries q. */
  ghost predicate Addresses(xs: seq<Bytes>, addrs: seq<Address>, q: seq<nat>) {
    |addrs| == |q| && forall k :: 0 <= k < |q| ==>
      0 < q[k] <= |xs| && addrs[k].i == q[k] && addrs[k].position == Position(xs, q[k])
  }

  lemma EntryLefts(h: Hashing, xs: seq<Bytes>, i: nat)
    requires 0 < i <= |xs|
    ensures Addresses(xs, LeftAddresses(EntryOf(h, xs, i)), Lefts(i))
    ensures |EntryOf(h, xs, i).inodes| == |Lefts(i)|
    ensures forall k :: 0 <= k < |Lefts(i)| ==> 0 < Lefts(i)[k] < i && EntryOf(h, xs, i).inodes[k].left.i == Lefts(i)[k]
  {
    hide Low, Pow2, BitLen, NodeHash, Position, Shape.Inodes, Shape.IsPerfect;
    LeftsBelow(i);
    InodesWithin(i);
    var e := EntryOf(h, xs, i);
    forall k | 0 <= k < |e.inodes|
      ensures e.inodes[k] == INodeOf(h, xs, Shape.Inodes(i)[k])
    {
    }
  }

  lemma EntriesUnion(h: Hashing, xs: seq<Bytes>, a: set<nat>, b: set<nat>)
    ensures EntriesOf(h, xs, a + b) == EntriesOf(h, xs, a) + EntriesOf(h, xs, b)
  {
    hide EntryOf;
  }

  lemma EntriesOne(h: Hashing, xs: seq<Bytes>, i: nat)
    requires 0 < i <= |xs|
    ensures EntriesOf(h, xs, {i}) == map[i := EntryOf(h, xs, i)]
  {
    hide EntryOf;
  }

  lemma MapsAdd<T, U>(a: map<T, U>, b: map<T, U>, c: map<T, U>)
    ensures (a + b) + c == a + (b + c)
  {
  }

  /** One entry and what can be reached from it, added to those before. */
  lemma LoadedOneMore(h: Hashing, xs: seq<Bytes>, c0: map<nat, Entry>, q: seq<nat>, k: nat, level: nat,
                      c1: map<nat, Entry>)
    requires k < |q| && 0 < q[k] <= |xs| && Loaded(h, xs, c0, q[..k], level, c1)
    ensures Loaded(h, xs, c0, q[..k + 1], level, c1 + EntriesOf(h, xs, Reach(q[k], level)))
  {
    hide EntryOf, Lefts, EntriesOf, Reach;
    var i := q[k];
    assert q[..k + 1][..k] == q[..k];
    EntriesUnion(h, xs, ReachAll(q[..k], level), Reach(i, level));
    MapsAdd(c0, EntriesOf(h, xs, ReachAll(q[..k], level)), EntriesOf(h, xs, Reach(i, level)));
  }

  lemma ReachSplit(h: Hashing, xs: seq<Bytes>, i: nat, level: nat)
    requires 0 < i <= |xs|
    ensures level == 0 ==> EntriesOf(h, xs, Reach(i, level)) == map[i := EntryOf(h, xs, i)]
    ensures level > 0 ==>
      var more := EntriesOf(h, xs, ReachAll(Lefts(i), level - 1));
      EntriesOf(h, xs, Reach(i, level)) == map[i := EntryOf(h, xs, i)] + more
  {
    hide EntryOf, Lefts, EntriesOf, ReachAll;
    EntriesOne(h, xs, i);
    if level == 0 {
      assert Reach(i, 0) == {i};
    } else {
      EntriesUnion(h, xs, {i}, ReachAll(Lefts(i), level - 1));
    }
  }

  lemma NothingLoaded(h: Hashing, xs: seq<Bytes>, c: map<nat, Entry>, level: nat)
    ensures Loaded(h, xs, c, [], level, c)
  {
    assert ReachAll([], level) == {};
  }

  /** The entries at addrs, and those they lead to in level - 1 hops more, read from any bytes whatever
      and added to the cache. */
  function LoadLevel(h: Hashing, bytes: Bytes, level: nat, addrs: seq<Address>, cache: map<nat, Entry>)
    : Result<map<nat, Entry>>
    decreases level, 1, |addrs|
  {
    if addrs == [] then Ok(cache) else
      var some :- LoadLevel(h, bytes, level, addrs[..|addrs| - 1], cache);
      LoadStep(h, bytes, level, addrs[|addrs| - 1], some)
  }

  function LoadStep(h: Hashing, bytes: Bytes, level: nat, addr: Address, cache: map<nat, Entry>)
    : Result<map<nat, Entry>>
    decreases level, 0, 0
  {
    var entry :- ReadChecked(h, bytes, addr.position, addr.i);
    var with := cache[entry.Index() := entry];
    if level > 1 then LoadLevel(h, bytes, level - 1, LeftAddresses(entry), with) else Ok(with)
  }

  /** One address more; and where the first addresses fail to load, all of them do. */
  lemma LoadOneMore(h: Hashing, bytes: Bytes, level: nat, addrs: seq<Address>, k: nat, cache: map<nat, Entry>)
    requires k < |addrs|
    ensures LoadLevel(h, bytes, level, addrs[..k + 1], cache)
         == match LoadLevel(h, bytes, level, addrs[..k], cache)
            case Ok(some) => LoadStep(h, bytes, level, addrs[k], some)
            case Err(e) => Err(e)
  {
    hide LoadStep;
    assert addrs[..k + 1][..k] == addrs[..k];
  }

  lemma {:induction false} LoadFails(h: Hashing, bytes: Bytes, level: nat, addrs: seq<Address>, k: nat,
                                     cache: map<nat, Entry>)
    requires k <= |addrs| && LoadLevel(h, bytes, level, addrs[..k], cache).Err?
    ensures LoadLevel(h, bytes, level, addrs, cache) == LoadLevel(h, bytes, level, addrs[..k], cache)
    decreases |addrs| - k
  {
    hide LoadStep, LoadLevel;
    if k < |addrs| {
      LoadOneMore(h, bytes, level, addrs, k, cache);
      LoadFails(h, bytes, level, addrs, k + 1, cache);
    } else {
      assert addrs[..k] == addrs;
    }
  }

  /** The first address that cannot be read decides the error. */
  lemma LoadFirstError(h: Hashing, bytes: Bytes, level: nat, addrs: seq<Address>, k: nat, cache: map<nat, Entry>)
    requires k < |addrs| && LoadLevel(h, bytes, level, addrs[..k], cache).Ok?
    requires ReadChecked(h, bytes, addrs[k].position, addrs[k].i).Err?
    ensures LoadLevel(h, bytes, level, addrs, cache) == Err(ReadChecked(h, bytes, addrs[k].position, addrs[k].i).error)
  {
    hide LoadLevel, LoadStep, ReadChecked;
    LoadOneMore(h, bytes, level, addrs, k, cache);
    LoadStepIs(h, bytes, level, addrs[k], LoadLevel(h, bytes, level, addrs[..k], cache).value);
    LoadFails(h, bytes, level, addrs, k + 1, cache);
  }

  /** Where loading succeeds, nothing is lost, and there is an entry for every address. */
  lemma {:induction false} LoadKeeps(h: Hashing, bytes: Bytes, level: nat, addrs: seq<Address>, cache: map<nat, Entry>)
    requires LoadLevel(h, bytes, level, addrs, cache).Ok?
    ensures cache.Keys <= LoadLevel(h, bytes, level, addrs, cache).value.Keys
    ensures forall k :: 0 <= k < |addrs| ==> addrs[k].i in LoadLevel(h, bytes, level, addrs, cache).value
    decreases level, |addrs|
  {
    hide ReadChecked;
    if addrs != [] {
      var n := |addrs| - 1;
      LoadKeeps(h, bytes, level, addrs[..n], cache);
      var some := LoadLevel(h, bytes, level, addrs[..n], cache).value;
      IndexChecked(h, bytes, addrs[n].position, addrs[n].i);
      var entry := ReadChecked(h, bytes, addrs[n].position, addrs[n].i).value;
      if level > 1 {
        LoadKeeps(h, bytes, level - 1, LeftAddresses(entry), some[entry.Index() := entry]);
      }
    }
  }

  lemma IndexChecked(h: Hashing, bytes: Bytes, position: nat, index: nat)
    requires ReadChecked(h, bytes, position, index).Ok?
    ensures ReadChecked(h, bytes, position, index).value.Index() == index
  {
    hide ReadData;
  }

  method LoadWithLevel(h: Hashing, reader: MemoryDevice, level: nat, addrs: seq<Address>, cache: map<nat, Entry>)
    returns (r: Result<map<nat, Entry>>)
    modifies reader`position, reader`readCount
    ensures r == LoadLevel(h, reader.buffer.bytes, level, addrs, cache)
    decreases level
  {
    hide LoadLevel, LoadStep;
    var entries: map<nat, Entry> := cache;
    ghost var bytes := reader.buffer.bytes;
    NoneToLoad(h, bytes, level, cache);
    for k := 0 to |addrs|
      invariant LoadLevel(h, bytes, level, addrs[..k], cache) == Ok(entries)
    {
      LoadOneMore(h, bytes, level, addrs, k, cache);
      LoadStepIs(h, bytes, level, addrs[k], entries);
      if LoadStep(h, bytes, level, addrs[k], entries).Err? {
        LoadFails(h, bytes, level, addrs, k + 1, cache);
      }
      var entry :- ReadEntryChecked(h, reader, addrs[k].position, addrs[k].i);
      entries := entries[entry.Index() := entry];
      if level > 1 {
        entries :- LoadWithLevel(h, reader, level - 1, LeftAddresses(entry), entries);
      }
    }
    assert addrs[..|addrs|] == addrs;
    r := Ok(entries);
  }

  lemma NoneToLoad(h: Hashing, bytes: Bytes, level: nat, cache: map<nat, Entry>)
    ensures LoadLevel(h, bytes, level, [], cache) == Ok(cache)
  {
  }

  lemma LoadStepIs(h: Hashing, bytes: Bytes, level: nat, addr: Address, cache: map<nat, Entry>)
    ensures LoadStep(h, bytes, level, addr, cache)
         == match ReadChecked(h, bytes, addr.position, addr.i)
            case Err(e) => Err(e)
            case Ok(entry) =>
              if level > 1 then LoadLevel(h, bytes, level - 1, LeftAddresses(entry), cache[entry.Index() := entry])
              else Ok(cache[entry.Index() := entry])
  {
    hide ReadChecked, LoadLevel, LeftAddresses;
  }

  /** Loading from the addresses of stored entries adds exactly the entries within level - 1 hops of them. */
  lemma {:induction false} LevelLoaded(h: Hashing, xs: seq<Bytes>, bytes: Bytes, level: nat, addrs: seq<Address>,
                                       cache: map<nat, Entry>, q: seq<nat>)
    requires level > 0 && Holds(h, xs, bytes) && Addresses(xs, addrs, q)
    ensures var r := LoadLevel(h, bytes, level, addrs, cache); r.Ok? && Loaded(h, xs, cache, q, level - 1, r.value)
    decreases level, 1, |addrs|
  {
    hide EntryOf, Holds, Lefts, EntriesOf, ReachAll, Reach, Position, LoadStep;
    if addrs == [] {
      NothingLoaded(h, xs, cache, level - 1);
      assert q == [];
    } else {
      var k := |addrs| - 1;
      LevelLoaded(h, xs, bytes, level, addrs[..k], cache, q[..k]);
      var some := LoadLevel(h, bytes, level, addrs[..k], cache).value;
      LoadedOneMore(h, xs, cache, q, k, level - 1, some);
      StepLoaded(h, xs, bytes, level, addrs[k], some);
      assert q[..k + 1] == q;
    }
  }

  lemma {:induction false} StepLoaded(h: Hashing, xs: seq<Bytes>, bytes: Bytes, level: nat, addr: Address,
                                      cache: map<nat, Entry>)
    requires level > 0 && Holds(h, xs, bytes) && 0 < addr.i <= |xs| && addr.position == Position(xs, addr.i)
    ensures LoadStep(h, bytes, level, addr, cache) == Ok(cache + EntriesOf(h, xs, Reach(addr.i, level - 1)))
    decreases level, 0, 0
  {
    hide EntryOf, Holds, Lefts, EntriesOf, ReachAll, Reach, Position, LoadLevel, ReadChecked, LoadStep, LeftAddresses;
    CheckedEntry(h, xs, addr.i, bytes);
    LoadStepIs(h, bytes, level, addr, cache);
    var entry := EntryOf(h, xs, addr.i);
    EntryAddress(h, xs, addr.i);
    ReachSplit(h, xs, addr.i, level - 1);
    var with := cache[entry.Index() := entry];
    assert with == cache + map[addr.i := entry];
    if level > 1 {
      EntryLefts(h, xs, addr.i);
      LevelLoaded(h, xs, bytes, level - 1, LeftAddresses(entry), with, Lefts(addr.i));
      MapsAdd(cache, map[addr.i := entry], EntriesOf(h, xs, ReachAll(Lefts(addr.i), level - 2)));
    }
  }

  // ----- rebuilding the cache

  /** The indices and heights of an entry are no larger than their types allow. */
  predicate Indexed(e: Entry) {
    e.Index() < TWO64 && forall k :: 0 <= k < |e.inodes| ==> InodeIndexed(e.inodes[k])
  }

  predicate InodeIndexed(d: INode) {
    d.meta.address.i < TWO64 && d.meta.address.j <= 64
  }

  /** What takes the place of the perfect-subtree roots in any entry: from the top, the left child of each
      inode down to the first perfect one, or to the leaf. */
  function RootsFromTop(s: seq<INode>, leaf: Address): (r: seq<Address>)
    requires forall k :: 0 <= k < |s| ==> InodeIndexed(s[k])
    ensures r != []
    decreases |s|
  {
    if s == [] then [leaf] else
      var d := s[|s| - 1];
      assert InodeIndexed(d);
      if Formula.IsPbst(d.meta.address.i, d.meta.address.j) then [d.meta.address]
      else [d.left] + RootsFromTop(s[..|s| - 1], leaf)
  }

  lemma FromTopStep(s: seq<INode>, leaf: Address)
    requires forall k :: 0 <= k < |s| ==> InodeIndexed(s[k])
    ensures s == [] ==> RootsFromTop(s, leaf) == [leaf]
    ensures s != [] ==>
      var d := s[|s| - 1];
      RootsFromTop(s, leaf) == if Low(d.meta.address.i, d.meta.address.j) == 0 then [d.meta.address]
        else [d.left] + RootsFromTop(s[..|s| - 1], leaf)
  {
    hide Low, Pow2;
    if s != [] {
      assert InodeIndexed(s[|s| - 1]);
    }
  }

  lemma InodeInWords(d: INode)
    requires InodeIndexed(d)
    ensures d.meta.address.i < TWO64 && d.meta.address.j <= 64
  {
  }

  method RootAddresses(last: Entry) returns (addrs: seq<Address>)
    requires Indexed(last)
    ensures addrs == RootsFromTop(last.inodes, last.enode.meta.address)
  {
    hide RootsFromTop, InodeIndexed, Low;
    var s, leaf := last.inodes, last.enode.meta.address;
    var found := false;
    addrs := [];
    var k := |s|;
    assert s[..k] == s;
    FromTopStep(s[..0], leaf);
    while k > 0
      invariant k <= |s| && !found
      invariant RootsFromTop(s, leaf) == addrs + RootsFromTop(s[..k], leaf)
    {
      var d := s[k - 1];
      assert s[..k][..k - 1] == s[..k - 1] && s[..k][k - 1] == d;
      FromTopStep(s[..k], leaf);
      InodeInWords(d);
      if Formula.IsPbst(d.meta.address.i, d.meta.address.j) {
        addrs := addrs + [d.meta.address];
        found := true;
        break;
      }
      addrs := addrs + [d.left];
      k := k - 1;
    }
    if !found {
      addrs := addrs + [leaf];
    }
  }

  /** The addresses of these nodes. */
  ghost predicate AddressesOf(xs: seq<Bytes>, addrs: seq<Address>, roots: seq<Shape.Addr>) {
    && |addrs| == |roots|
    && forall k :: 0 <= k < |addrs| ==> 0 < roots[k].i <= |xs| && addrs[k] == AddressOf(xs, roots[k])
  }

  lemma AddressBefore(xs: seq<Bytes>, a: Address, addrs: seq<Address>, root: Shape.Addr, roots: seq<Shape.Addr>)
    requires 0 < root.i <= |xs| && a == AddressOf(xs, root) && AddressesOf(xs, addrs, roots)
    ensures AddressesOf(xs, [a] + addrs, [root] + roots)
  {
    hide AddressOf;
  }

  /** In an entry of a Slate these are the addresses of the perfect-subtree roots of its generation, left
      to right. */
  lemma RootsFound(h: Hashing, xs: seq<Bytes>)
    requires Fits(xs) && xs != []
    ensures Indexed(EntryOf(h, xs, |xs|))
    ensures var e := EntryOf(h, xs, |xs|);
      AddressesOf(xs, RootsFromTop(e.inodes, e.enode.meta.address), Shape.Roots(|xs|))
  {
    hide EntryOf, Position, NodeHash, Shape.Roots, Low, AddressesOf, InodeIndexed, RootsFromTop;
    var e := EntryOf(h, xs, |xs|);
    EntryIsIndexed(h, xs, |xs|);
    RootsWithin(|xs|);
    assert e.inodes[..|e.inodes|] == e.inodes && Shape.Roots(|xs|)[0..] == Shape.Roots(|xs|);
    RootsFoundFrom(h, xs, e, 0);
  }

  lemma {:induction false} RootsFoundFrom(h: Hashing, xs: seq<Bytes>, e: Entry, k: nat)
    requires Fits(xs) && xs != [] && e == EntryOf(h, xs, |xs|) && Indexed(e) && k < |Shape.Roots(|xs|)|
    requires k <= |e.inodes|
    ensures AddressesOf(xs, RootsFromTop(e.inodes[..|e.inodes| - k], e.enode.meta.address), Shape.Roots(|xs|)[k..])
    decreases |Shape.Roots(|xs|)| - k
  {
    hide EntryOf, Position, NodeHash, Shape.Roots, Low, AddressOf, AddressesOf, Fits, RootsFromTop, InodeIndexed;
    RootsWithin(|xs|);
    InodeCount(h, xs);
    var roots, leaf := Shape.Roots(|xs|), e.enode.meta.address;
    var s := e.inodes[..|e.inodes| - k];
    FromTopStep(s, leaf);
    NoAddresses(xs);
    assert roots[k..] == [roots[k]] + roots[k + 1..];
    if s == [] {
      AddressBefore(xs, leaf, [], roots[k], []);
      assert [leaf] + [] == [leaf] && roots[k + 1..] == [];
    } else {
      var d := s[|s| - 1];
      InodeFromTheTop(h, xs, k);
      assert s[..|s| - 1] == e.inodes[..|e.inodes| - (k + 1)];
      if k < |roots| - 1 {
        RootsFoundFrom(h, xs, e, k + 1);
        AddressBefore(xs, d.left, RootsFromTop(s[..|s| - 1], leaf), roots[k], roots[k + 1..]);
      } else {
        AddressBefore(xs, d.meta.address, [], roots[k], []);
        assert [d.meta.address] + [] == [d.meta.address] && roots[k + 1..] == [];
      }
    }
  }

  lemma NoAddresses(xs: seq<Bytes>)
    ensures AddressesOf(xs, [], [])
  {
  }

  lemma EntryIsIndexed(h: Hashing, xs: seq<Bytes>, i: nat)
    requires Fits(xs) && 0 < i <= |xs|
    ensures Indexed(EntryOf(h, xs, i))
  {
    hide EntryOf;
    EntryIsStorable(h, xs, i);
    StorableIsIndexed(EntryOf(h, xs, i));
  }

  lemma StorableIsIndexed(e: Entry)
    requires Storable(e)
    ensures Indexed(e)
  {
    forall k | 0 <= k < |e.inodes|
      ensures InodeIndexed(e.inodes[k])
    {
      assert StorableINode(e.inodes[k], e.Index(), e.enode.meta.address.position, HeightBefore(e.inodes, k));
    }
  }

  /** There is an inode for every root but the last; no more of them when the last root is a leaf. */
  lemma InodeCount(h: Hashing, xs: seq<Bytes>)
    requires Fits(xs) && xs != []
    ensures var n, roots := |xs|, Shape.Roots(|xs|);
      && |EntryOf(h, xs, n).inodes| >= |roots| - 1 >= 0
      && (|EntryOf(h, xs, n).inodes| == |roots| - 1 ==> roots[|roots| - 1] == Shape.Addr(n, 0))
    ensures AddressOf(xs, Shape.Addr(|xs|, 0)) == EntryOf(h, xs, |xs|).enode.meta.address
  {
    hide Low, Pow2, BitLen, Shape.Roots, Shape.Joints, Shape.Spine, Shape.Inodes, Shape.IsPerfect, Shape.IsNode;
    var n := |xs|;
    FitsInWords(xs, n);
    var last := Formula.LastRoot(n);
    JointsOf(n);
    TopOfSpine(last);
    FromTheTop(Shape.Inodes(n), Shape.Spine(n, last.j), Shape.Joints(n, BitLen(n)), 0);
  }

  /** From the top, the inodes of the last entry are first the joints, each with a root on its left, and
      then those of the last perfect subtree, its root first. */
  lemma InodeFromTheTop(h: Hashing, xs: seq<Bytes>, k: nat)
    requires Fits(xs) && xs != [] && k < |EntryOf(h, xs, |xs|).inodes| && k < |Shape.Roots(|xs|)|
    ensures var e, roots := EntryOf(h, xs, |xs|), Shape.Roots(|xs|);
      var inode := e.inodes[|e.inodes| - 1 - k];
      && 0 < roots[k].i <= |xs|
      && inode.meta.address.i == |xs| && 0 < inode.meta.address.j <= 64
      && (k < |roots| - 1 ==> inode.left == AddressOf(xs, roots[k]) && Low(|xs|, inode.meta.address.j) > 0)
      && (k == |roots| - 1 ==> inode.meta.address == AddressOf(xs, roots[k]) && Low(|xs|, inode.meta.address.j) == 0)
  {
    hide Low, Pow2, BitLen, Shape.Roots, Shape.Joints, Shape.Inodes, Position, NodeHash;
    var n := |xs|;
    FitsInWords(xs, n);
    RootsWithin(n);
    InodesWithin(n);
    ShapeFromTheTop(n, k);
    var t := |Shape.Inodes(n)| - 1 - k;
    assert EntryOf(h, xs, n).inodes[t] == INodeOf(h, xs, Shape.Inodes(n)[t]);
  }

  lemma ShapeFromTheTop(n: u64, k: nat)
    requires n > 0 && k < |Shape.Inodes(n)| && k < |Shape.Roots(n)|
    ensures var s, roots := Shape.Inodes(n), Shape.Roots(n);
      var d := s[|s| - 1 - k];
      && 0 < d.node.j <= 64
      && (k < |roots| - 1 ==> d.left == roots[k] && Low(n, d.node.j) > 0)
      && (k == |roots| - 1 ==> d.node == roots[k] && Low(n, d.node.j) == 0)
  {
    hide Low, Pow2, BitLen, Shape.Roots, Shape.Joints, Shape.Spine, Shape.Inodes, Shape.IsPerfect, Shape.IsNode;
    var s, roots, joints := Shape.Inodes(n), Shape.Roots(n), Shape.Joints(n, BitLen(n));
    var last := Formula.LastRoot(n);
    JointsOf(n);
    TopOfSpine(last);
    PerfectLow(last);
    FromTheTop(s, Shape.Spine(n, last.j), joints, k);
    HeightOfInode(n, |s| - 1 - k);
  }

  lemma HeightOfInode(n: u64, t: nat)
    requires n > 0 && t < |Shape.Inodes(n)|
    ensures 0 < Shape.Inodes(n)[t].node.j <= 64
  {
    InodeHeights(n);
  }

  lemma FromTheTop<T>(s: seq<T>, low: seq<T>, high: seq<T>, k: nat)
    requires s == low + Shape.Reverse(high)
    ensures |s| == |low| + |high|
    ensures k < |high| ==> s[|s| - 1 - k] == high[k]
    ensures low != [] ==> s[|s| - 1 - |high|] == low[|low| - 1]
  {
  }

  lemma JointsOf(n: nat)
    requires n > 0
    ensures var roots, joints := Shape.Roots(n), Shape.Joints(n, BitLen(n));
      && |joints| + 1 == |roots|
      && forall k :: 0 <= k < |joints| ==> joints[k].left == roots[k] && Low(n, joints[k].node.j) > 0
  {
    hide Low, Pow2, Shape.RootsBelow, Shape.Joints;
    BitLenBounds(n);
    LowSmall(n, BitLen(n));
    Shape.JointsJoinRoots(n, BitLen(n));
    JointsAreNotPerfect(n, BitLen(n));
  }

  lemma TopOfSpine(a: Shape.Addr)
    requires Shape.IsPerfect(a)
    ensures var s := Shape.Spine(a.i, a.j); if a.j == 0 then s == [] else s != [] && s[|s| - 1].node == a
  {
  }

  lemma PerfectLow(a: Shape.Addr)
    requires Shape.IsPerfect(a)
    ensures Low(a.i, a.j) == 0
  {
    LowPred(a.i, a.j);
  }

  lemma {:induction false} JointsAreNotPerfect(n: nat, b: nat)
    requires n > 0 && Low(n, b) > 0
    ensures forall k :: 0 <= k < |Shape.Joints(n, b)| ==> Low(n, Shape.Joints(n, b)[k].node.j) > 0
    decreases b
  {
    hide Low, Pow2;
    Shape.FirstRoot(n, b);
    var g := BitLen(Low(n, b));
    if Low(n, g - 1) > 0 {
      JointsAreNotPerfect(n, g - 1);
    }
  }

  /** The metadata of the nodes at addrs, taken from these entries; a node that is not there is a panic. */
  function MetasFrom(addrs: seq<Address>, near: map<nat, Entry>): Result<map<nat, MetaInfo>> {
    if addrs == [] then Ok(map[]) else
      var some :- MetasFrom(addrs[..|addrs| - 1], near);
      var addr := addrs[|addrs| - 1];
      if addr.i in near && near[addr.i].Meta(addr.j).Some? then Ok(some[addr.i := near[addr.i].Meta(addr.j).value])
      else Err(Panicked)
  }

  lemma {:induction false} MetasFail(addrs: seq<Address>, near: map<nat, Entry>, k: nat)
    requires k <= |addrs| && MetasFrom(addrs[..k], near).Err?
    ensures MetasFrom(addrs, near) == Err(Panicked)
    decreases |addrs| - k
  {
    if k < |addrs| {
      assert addrs[..k + 1][..k] == addrs[..k];
      MetasFail(addrs, near, k + 1);
    } else {
      assert addrs[..k] == addrs;
      if |addrs| > 0 && MetasFrom(addrs[..|addrs| - 1], near).Err? {
        MetasError(addrs, near);
      }
    }
  }

  lemma {:induction false} MetasError(addrs: seq<Address>, near: map<nat, Entry>)
    ensures MetasFrom(addrs, near).Err? ==> MetasFrom(addrs, near) == Err(Panicked)
    decreases |addrs|
  {
    if addrs != [] {
      MetasError(addrs[..|addrs| - 1], near);
    }
  }

  /** There is a result exactly if every node is there, and a panic if not. */
  lemma {:induction false} MetasOutcome(addrs: seq<Address>, near: map<nat, Entry>)
    ensures var r := MetasFrom(addrs, near);
      && (r.Ok? <==> forall k :: 0 <= k < |addrs| ==> addrs[k].i in near && near[addrs[k].i].Meta(addrs[k].j).Some?)
      && (r.Err? ==> r.error == Panicked)
      && (r.Ok? ==> forall k :: 0 <= k < |addrs| ==> addrs[k].i in r.value)
      && (r.Ok? ==> forall i :: i in r.value ==> exists k ::
            0 <= k < |addrs| && addrs[k].i == i && near[i].Meta(addrs[k].j) == Some(r.value[i]))
    decreases |addrs|
  {
    hide Entry.Meta;
    if addrs != [] {
      var p := addrs[..|addrs| - 1];
      MetasOutcome(p, near);
      assert forall k :: 0 <= k < |p| ==> p[k] == addrs[k];
    }
  }

  method LoadRoots(addrs: seq<Address>, near: map<nat, Entry>) returns (r: Result<map<nat, MetaInfo>>)
    ensures r == MetasFrom(addrs, near)
  {
    var metas: map<nat, MetaInfo> := map[];
    for k := 0 to |addrs|
      invariant MetasFrom(addrs[..k], near) == Ok(metas)
    {
      assert addrs[..k + 1][..k] == addrs[..k];
      var addr := addrs[k];
      if addr.i !in near || near[addr.i].Meta(addr.j) == None {
        MetasFail(addrs, near, k + 1);
        return Err(Panicked);
      }
      metas := metas[addr.i := near[addr.i].Meta(addr.j).value];
    }
    assert addrs[..|addrs|] == addrs;
    r := Ok(metas);
  }

  /** The cache rebuilt from a last entry and any bytes whatever. */
  function LoadData(h: Hashing, bytes: Bytes, level: nat, last: Entry): Result<Cache>
    requires Indexed(last)
  {
    if last.Index() == 0 then Err(Panicked) else
      var own := map[last.Index() := last];
      var entries :- if level == 0 then Ok(own) else LoadLevel(h, bytes, level, LeftAddresses(last), own);
      var near :- if level == 0 then LoadLevel(h, bytes, 1, LeftAddresses(last), own) else Ok(entries);
      var pbstRoots :- MetasFrom(RootsFromTop(last.inodes, last.enode.meta.address), near);
      Ok(Cache(level, Some(Formula.ModelOf(last.Index())), entries, pbstRoots))
  }

  /** What loading a cache comes to: the entries within the level, one hop at least, then the roots found
      among them; of the entries only as many are kept as the level says. */
  lemma LoadOutcome(h: Hashing, bytes: Bytes, level: nat, last: Entry)
    requires Indexed(last)
    ensures last.Index() == 0 ==> LoadData(h, bytes, level, last) == Err(Panicked)
    ensures last.Index() > 0 ==>
      var own := map[last.Index() := last];
      match LoadLevel(h, bytes, if level == 0 then 1 else level, LeftAddresses(last), own)
      case Err(e) => LoadData(h, bytes, level, last) == Err(e)
      case Ok(near) =>
        match MetasFrom(RootsFromTop(last.inodes, last.enode.meta.address), near)
        case Err(e) => LoadData(h, bytes, level, last) == Err(e)
        case Ok(metas) =>
          LoadData(h, bytes, level, last)
            == Ok(Cache(level, Some(Formula.ModelOf(last.Index())), if level == 0 then own else near, metas))
  {
    hide LoadLevel, MetasFrom, RootsFromTop, Formula.ModelOf;
  }

  /** Rebuilds the cache from the last entry of a revision and the entries stored before it. */
  method Load(h: Hashing, storage: BlockStorage, level: nat, last: Entry) returns (r: Result<Cache>)
    requires Indexed(last)
    ensures r == LoadData(h, storage.device.buffer.bytes, level, last)
  {
    hide LoadLevel, MetasFrom, RootsFromTop, Formula.ModelOf;
    var i := last.Index();
    if i == 0 {
      // there is no generation 0 to build a model of
      return Err(Panicked);
    }
    var model := Formula.NewModel(i);
    var rootAddrs := RootAddresses(last);
    var level1 := LeftAddresses(last);
    var entries: map<nat, Entry> := map[i := last];
    if level > 0 {
      var reader := storage.Reader();
      entries :- LoadWithLevel(h, reader, level, level1, entries);
    }
    var near := entries;
    if level == 0 {
      var reader := storage.Reader();
      near :- LoadWithLevel(h, reader, 1, level1, map[i := last]);
    }
    var pbstRoots :- LoadRoots(rootAddrs, near);
    r := Ok(Cache(level, Some(model), entries, pbstRoots));
  }

  /** On a storage that holds what it should, that is the cache of the payloads. */
  lemma LoadIs(h: Hashing, xs: seq<Bytes>, level: nat, bytes: Bytes)
    requires xs != [] && Holds(h, xs, bytes)
    ensures Indexed(EntryOf(h, xs, |xs|))
    ensures LoadData(h, bytes, level, EntryOf(h, xs, |xs|)) == Ok(CacheOf(h, xs, level))
  {
    hide EntryOf, Lefts, Position, Reach, ReachAll, EntriesOf, RootMetasOf, Formula.ModelOf, Shape.Roots;
    hide LoadLevel, MetasFrom, RootsFromTop, Indexed;
    var i, last := |xs|, EntryOf(h, xs, |xs|);
    EntryAddress(h, xs, i);
    EntryIsIndexed(h, xs, i);
    EntryLefts(h, xs, i);
    var deep := if level == 0 then 1 else level;
    LevelLoaded(h, xs, bytes, deep, LeftAddresses(last), map[i := last], Lefts(i));
    var near := LoadLevel(h, bytes, deep, LeftAddresses(last), map[i := last]).value;
    ReachOf(h, xs, deep, last, near);
    if level == 0 {
      ReachOf(h, xs, 0, last, map[i := last]);
    }
    RootsFound(h, xs);
    MetasFound(h, xs, deep, RootsFromTop(last.inodes, last.enode.meta.address));
  }

  /** Every root is in an entry at most one hop away: there is no panic. */
  lemma MetasFound(h: Hashing, xs: seq<Bytes>, level: nat, addrs: seq<Address>)
    requires xs != [] && level > 0 && AddressesOf(xs, addrs, Shape.Roots(|xs|))
    ensures MetasFrom(addrs, EntriesOf(h, xs, Reach(|xs|, level))) == Ok(RootMetasOf(h, xs))
  {
    hide EntryOf, Position, Reach, EntriesOf, MetasOf, Shape.Roots, MetaOf, MetasFrom, AddressesOf, Entry.Meta;
    var roots, near := Shape.Roots(|xs|), EntriesOf(h, xs, Reach(|xs|, level));
    RootsWithin(|xs|);
    MetasStep(h, xs, roots, 0);
    SameLength(xs, addrs, roots);
    var k := 0;
    NoMetas(near);
    assert addrs[..0] == [];
    while k < |addrs|
      invariant k <= |addrs| && MetasFrom(addrs[..k], near) == Ok(MetasOf(h, xs, roots[..k]))
    {
      MetasStep(h, xs, roots, k);
      NearRoot(h, xs, level, k);
      AddressAt(xs, addrs, roots, k);
      OneMoreMeta(addrs, near, k);
      k := k + 1;
    }
    assert addrs[..|addrs|] == addrs;
  }

  lemma NoMetas(near: map<nat, Entry>)
    ensures MetasFrom([], near) == Ok(map[])
  {
  }

  lemma OneMoreMeta(addrs: seq<Address>, near: map<nat, Entry>, k: nat)
    requires k < |addrs| && MetasFrom(addrs[..k], near).Ok?
    requires addrs[k].i in near && near[addrs[k].i].Meta(addrs[k].j).Some?
    ensures MetasFrom(addrs[..k + 1], near)
         == Ok(MetasFrom(addrs[..k], near).value[addrs[k].i := near[addrs[k].i].Meta(addrs[k].j).value])
  {
    hide Entry.Meta;
    assert addrs[..k + 1][..k] == addrs[..k];
  }

  lemma SameLength(xs: seq<Bytes>, addrs: seq<Address>, roots: seq<Shape.Addr>)
    requires AddressesOf(xs, addrs, roots)
    ensures |addrs| == |roots|
  {
  }

  lemma AddressAt(xs: seq<Bytes>, addrs: seq<Address>, roots: seq<Shape.Addr>, k: nat)
    requires AddressesOf(xs, addrs, roots) && k < |addrs|
    ensures |addrs| == |roots| && 0 < roots[k].i <= |xs|
    ensures addrs[k].i == roots[k].i && addrs[k].j == roots[k].j
  {
    hide Position;
  }

  lemma NearRoot(h: Hashing, xs: seq<Bytes>, level: nat, k: nat)
    requires xs != [] && level > 0 && k < |Shape.Roots(|xs|)|
    ensures var root, near := Shape.Roots(|xs|)[k], EntriesOf(h, xs, Reach(|xs|, level));
      && 0 < root.i <= |xs| && root.i in near
      && near[root.i].Meta(root.j) == Some(MetaOf(h, xs, root))
  {
    hide EntryOf, Reach, Shape.Roots, MetaOf, Shape.IsPerfect;
    var root := Shape.Roots(|xs|)[k];
    RootsWithin(|xs|);
    RootIsNear(|xs|, k);
    ReachesMore(|xs|, 1, level);
    Shape.PerfectIsNode(root);
    MetaOfNode(h, xs, root.i, root.j);
  }

  /** The last entry together with what its left children reach is what it reaches itself. */
  lemma ReachOf(h: Hashing, xs: seq<Bytes>, level: nat, last: Entry, c: map<nat, Entry>)
    requires xs != [] && last == EntryOf(h, xs, |xs|)
    requires level == 0 ==> c == map[|xs| := last]
    requires level > 0 ==> Loaded(h, xs, map[|xs| := last], Lefts(|xs|), level - 1, c)
    ensures c == EntriesOf(h, xs, Reach(|xs|, level))
  {
    hide EntryOf, Lefts, EntriesOf, ReachAll;
    EntriesOne(h, xs, |xs|);
    if level == 0 {
      assert Reach(|xs|, 0) == {|xs|};
    } else {
      EntriesUnion(h, xs, {|xs|}, ReachAll(Lefts(|xs|), level - 1));
    }
  }

  lemma {:induction false} ReachesMore(i: nat, a: nat, b: nat)
    ensures a <= b ==> Reach(i, a) <= Reach(i, b)
    decreases b
  {
    if a < b {
      ReachesMore(i, a, b - 1);
      ReachGrows(i, b - 1);
    }
  }

  /** The entries that hold the perfect-subtree roots are at most one hop away. */
  lemma RootIsNear(n: nat, k: nat)
    requires n > 0 && k < |Shape.Roots(n)|
    ensures Shape.Roots(n)[k].i in Reach(n, 1)
  {
    hide Low, Pow2, BitLen, Shape.RootsBelow;
    RootsWithin(n);
    var q := Shape.Roots(n)[k].i;
    if q != n {
      RootIsLeft(n, k);
      LeftsBelow(n);
      var l :| 0 <= l < |Shape.Inodes(n)| && Shape.Inodes(n)[l].left == Shape.Roots(n)[k];
      InReachAll(Lefts(n), 0, q);
      assert q in Reach(Lefts(n)[l], 0);
    }
  }

  // ----- carrying the cache on

  /** All of these entries are cached, as they were stored. */
  ghost predicate AllCached(h: Hashing, xs: seq<Bytes>, cache: map<nat, Entry>, s: set<nat>) {
    forall x :: x in s ==> 0 < x <= |xs| && x in cache && cache[x] == EntryOf(h, xs, x)
  }

  /** Copies what can be reached from an entry in distance hops from one cache to another. */
  method MigrateCache(cache: map<nat, Entry>, entry: Entry, distance: nat, into: map<nat, Entry>,
                      ghost h: Hashing, ghost xs: seq<Bytes>)
    returns (r: map<nat, Entry>)
    requires distance > 0 && 0 < entry.Index() <= |xs| && entry == EntryOf(h, xs, entry.Index())
    requires AllCached(h, xs, cache, ReachAll(Lefts(entry.Index()), distance - 1))
    ensures Loaded(h, xs, into, Lefts(entry.Index()), distance - 1, r)
    decreases distance
  {
    hide EntryOf, Lefts, EntriesOf, Reach, ReachAll;
    ghost var q := Lefts(entry.Index());
    EntryLefts(h, xs, entry.Index());
    NothingLoaded(h, xs, into, distance - 1);
    r := into;
    for k := 0 to |entry.inodes|
      invariant Loaded(h, xs, into, q[..k], distance - 1, r)
    {
      var i := entry.inodes[k].left.i;
      ReachAllHas(q, k, distance - 1);
      ReachHas(i, distance - 1);
      // every entry looked up is there: the unwrap never fails
      var leftEntry := cache[i];
      EntryAddress(h, xs, i);
      LoadedOneMore(h, xs, into, q, k, distance - 1, r);
      ReachSplit(h, xs, i, distance - 1);
      ghost var before := r;
      if distance > 1 {
        assert ReachAll(Lefts(leftEntry.Index()), distance - 2) <= ReachAll(q, distance - 1);
        r := MigrateCache(cache, leftEntry, distance - 1, r, h, xs);
        InsertLater(h, xs, before, ReachAll(Lefts(i), distance - 2), i);
      }
      r := r[i := leftEntry];
    }
    assert q[..|entry.inodes|] == q;
  }

  lemma ReachHas(i: nat, level: nat)
    requires i > 0
    ensures i in Reach(i, level)
    ensures level > 0 ==> ReachAll(Lefts(i), level - 1) <= Reach(i, level)
  {
  }

  /** Inserting an entry after those reached from it is the same as inserting it before them. */
  lemma InsertLater(h: Hashing, xs: seq<Bytes>, c: map<nat, Entry>, s: set<nat>, i: nat)
    requires 0 < i <= |xs|
    ensures (c + EntriesOf(h, xs, s))[i := EntryOf(h, xs, i)] == c + (map[i := EntryOf(h, xs, i)] + EntriesOf(h, xs, s))
  {
    hide EntryOf;
  }

  /** The metadata of root k of the new revision: kept, or taken from the new entry. */
  method NextRootMeta(cache: Cache, entry: Entry, root: Shape.Addr,
                      ghost h: Hashing, ghost xs: seq<Bytes>, ghost k: nat)
    returns (meta: MetaInfo)
    requires xs != [] && entry == EntryOf(h, xs, |xs|) && k < |Shape.Roots(|xs|)| && root == Shape.Roots(|xs|)[k]
    requires cache.pbstRoots == RootMetasOf(h, xs[..|xs| - 1])
    ensures 0 < root.i <= |xs| && meta == MetaOf(h, xs, root)
  {
    hide EntryOf, RootMetasOf, Shape.Roots, Shape.IsNode, MetaOf;
    EntryAddress(h, xs, |xs|);
    RootBefore(h, xs, k);
    if root.i in cache.pbstRoots {
      meta := cache.pbstRoots[root.i];
    } else if root.i == entry.Index() {
      MetaOfNode(h, xs, root.i, root.j);
      meta := if root.j == 0 then entry.enode.meta else entry.InodeAt(root.j).value.meta;
    } else {
      // every root but the last was a root of the revision before: the entry cache is never searched
      assert false;
    }
  }

  method MigrateRoots(cache: Cache, entry: Entry, model: Formula.Model, ghost h: Hashing, ghost xs: seq<Bytes>)
    returns (pbstRoots: map<nat, MetaInfo>)
    requires xs != [] && entry == EntryOf(h, xs, |xs|) && model == Formula.ModelOf(|xs|)
    requires cache.pbstRoots == RootMetasOf(h, xs[..|xs| - 1])
    ensures pbstRoots == RootMetasOf(h, xs)
  {
    hide EntryOf, MetasOf, Shape.Roots, Shape.Joints, MetaOf;
    RootsWithin(|xs|);
    ghost var roots := Shape.Roots(|xs|);
    pbstRoots := map[];
    MetasStep(h, xs, roots, 0);
    for k := 0 to |model.pbstRoots|
      invariant pbstRoots == MetasOf(h, xs, roots[..k])
    {
      var root := model.pbstRoots[k];
      MetasStep(h, xs, roots, k);
      var meta := NextRootMeta(cache, entry, root, h, xs, k);
      pbstRoots := pbstRoots[root.i := meta];
    }
  }

  lemma MetasStep(h: Hashing, xs: seq<Bytes>, s: seq<Shape.Addr>, k: nat)
    requires k <= |s| && forall l :: 0 <= l < |s| ==> 0 < s[l].i <= |xs|
    ensures MetasOf(h, xs, s[..0]) == map[]
    ensures MetasOf(h, xs, s[..|s|]) == MetasOf(h, xs, s)
    ensures k < |s| ==> MetasOf(h, xs, s[..k + 1]) == MetasOf(h, xs, s[..k])[s[k].i := MetaOf(h, xs, s[k])]
  {
    assert s[..|s|] == s;
    if k < |s| {
      assert s[..k + 1][..k] == s[..k];
    }
  }

  /** Every root but the last is in the map of the revision before, and what is found there is right. */
  lemma RootBefore(h: Hashing, xs: seq<Bytes>, k: nat)
    requires xs != [] && k < |Shape.Roots(|xs|)|
    ensures var root, before := Shape.Roots(|xs|)[k], RootMetasOf(h, xs[..|xs| - 1]);
      && 0 < root.i <= |xs| && Shape.IsNode(root.i, root.j)
      && (root.i != |xs| ==> root.i in before)
      && (root.i in before ==> before[root.i] == MetaOf(h, xs, root))
  {
    hide Shape.Roots, Shape.IsPerfect, Shape.IsNode, MetasOf, MetaOf;
    var n, ys := |xs|, xs[..|xs| - 1];
    var r, o := Shape.Roots(n), Shape.Roots(n - 1);
    RootsWithin(n);
    RootsWithin(n - 1);
    CarryOver(n);
    MetasAt(h, ys, o);
    Shape.PerfectIsNode(r[k]);
    if k < |r| - 1 {
      assert r[k] == r[..|r| - 1][k] == o[..|r| - 1][k] == o[k];
      MetaPrefix(h, xs, ys, n - 1, r[k]);
    }
  }

  method Migrate(cache: Cache, entry: Entry, model: Formula.Model, ghost h: Hashing, ghost xs: seq<Bytes>)
    returns (r: Cache)
    requires xs != [] && entry == EntryOf(h, xs, |xs|) && model == Formula.ModelOf(|xs|)
    requires cache == CacheOf(h, xs[..|xs| - 1], cache.level)
    ensures r == CacheOf(h, xs, cache.level)
  {
    hide EntryOf, EntriesOf, RootMetasOf, MetasOf, Reach, ReachAll, Formula.ModelOf;
    EntryAddress(h, xs, |xs|);
    NoRootMetas(h);
    var pbstRoots := MigrateRoots(cache, entry, model, h, xs);
    var entries: map<nat, Entry> := map[];
    if cache.level > 0 {
      CarriedEntries(h, xs, cache.level);
      entries := MigrateCache(cache.entries, entry, cache.level, entries, h, xs);
    }
    ghost var carried := entries;
    entries := entries[entry.Index() := entry];
    MigratedReach(h, xs, cache.level, entry, carried, entries);
    r := Cache(cache.level, Some(model), entries, pbstRoots);
  }

  lemma NoRootMetas(h: Hashing)
    ensures RootMetasOf(h, []) == map[]
  {
    RootsWithin(0);
  }

  /** Everything the new cache needs besides the new entry is in the old one. */
  lemma CarriedEntries(h: Hashing, xs: seq<Bytes>, level: nat)
    requires xs != [] && level > 0
    ensures AllCached(h, xs, CacheOf(h, xs[..|xs| - 1], level).entries, ReachAll(Lefts(|xs|), level - 1))
  {
    hide EntryOf, Lefts, RootMetasOf, Formula.ModelOf, Reach, ReachAll;
    var n, ys := |xs|, xs[..|xs| - 1];
    var cached := CacheOf(h, ys, level).entries;
    var s := ReachAll(Lefts(n), level - 1);
    forall x | x in s
      ensures 0 < x <= |xs| && x in cached && cached[x] == EntryOf(h, xs, x)
    {
      StillReached(n, level, x);
      assert ys != [] && cached == EntriesOf(h, ys, Reach(n - 1, level));
      assert xs[..x] == ys[..x];
      EntryPrefix(h, xs, ys, x);
    }
  }

  /** What e_n reaches through its left children is earlier, and e_(n-1) reaches it too. */
  lemma StillReached(n: nat, level: nat, x: nat)
    requires n > 0 && level > 0 && x in ReachAll(Lefts(n), level - 1)
    ensures 0 < x < n && x in Reach(n - 1, level)
  {
    hide Lefts, Reach, ReachAll;
    LeftsBelow(n);
    InReachAll(Lefts(n), level - 1, x);
    var k :| 0 <= k < |Lefts(n)| && x in Reach(Lefts(n)[k], level - 1);
    ReachBelow(Lefts(n)[k], level - 1, x);
    ReachCarriesOver(n, level);
    ReachHas(n, level);
  }

  lemma MigratedReach(h: Hashing, xs: seq<Bytes>, level: nat, last: Entry, c0: map<nat, Entry>, c: map<nat, Entry>)
    requires xs != [] && last == EntryOf(h, xs, |xs|)
    requires level == 0 ==> c0 == map[]
    requires level > 0 ==> Loaded(h, xs, map[], Lefts(|xs|), level - 1, c0)
    requires c == c0[|xs| := last]
    ensures c == EntriesOf(h, xs, Reach(|xs|, level))
  {
    hide EntryOf, Lefts, EntriesOf, ReachAll;
    if level > 0 {
      InsertLater(h, xs, map[], ReachAll(Lefts(|xs|), level - 1), |xs|);
    }
    ReachOf(h, xs, level, last, c);
  }
}
