/** The storage on a key-value database (src/storage/rocksdb.rs). The database is a map from byte strings
    to byte strings that other storages may share under other prefixes. */
module RocksDb {
  import opened Words
  import opened Errors
  import opened Merkle
  import opened Entries
  import opened Device
  import opened Serialize
  import Shape

  // ----- keys

  /** Exclusive or, digit by digit. */
  function Xor(x: nat, y: nat): nat
    decreases x + y
  {
    if x == 0 && y == 0 then 0
    else 2 * Xor(x / 2, y / 2) + (if x % 2 == y % 2 then 0 else 1)
  }

  lemma {:induction false} XorBit(x: nat, y: nat, k: nat)
    ensures Bit(Xor(x, y), k) <==> Bit(x, k) != Bit(y, k)
    decreases k
  {
    if k > 0 {
      XorBit(x / 2, y / 2, k - 1);
      assert Xor(x, y) / 2 == Xor(x / 2, y / 2);
    }
  }

  lemma {:induction false} XorFits(x: nat, y: nat, n: nat)
    requires x < Pow2(n) && y < Pow2(n)
    ensures Xor(x, y) < Pow2(n)
    decreases n
  {
    if n > 0 {
      XorFits(x / 2, y / 2, n - 1);
    }
  }

  lemma {:induction false} ShiftedBit(x: nat, s: nat, k: nat)
    ensures Bit(Shifted(x, s), k) == Bit(x, s + k)
    decreases s
  {
    if s > 0 {
      ShiftedBit(x / 2, s - 1, k);
    }
  }

  lemma {:induction false} NoHighBits(x: nat, n: nat, k: nat)
    requires x < Pow2(n) && n <= k
    ensures !Bit(x, k)
    decreases k
  {
    if k > 0 && n > 0 {
      NoHighBits(x / 2, n - 1, k - 1);
    } else if k > 0 {
      NoHighBits(0, 0, k - 1);
    }
  }

  /** Numbers with the same digits are the same. */
  lemma {:induction false} BitsTell(x: nat, y: nat, n: nat)
    requires x < Pow2(n) && y < Pow2(n) && forall k: nat :: k < n ==> Bit(x, k) == Bit(y, k)
    ensures x == y
    decreases n
  {
    if n > 0 {
      assert Bit(x, 0) == Bit(y, 0);
      forall k: nat | k < n - 1
        ensures Bit(x / 2, k) == Bit(y / 2, k)
      {
        assert Bit(x, k + 1) == Bit(y, k + 1);
      }
      BitsTell(x / 2, y / 2, n - 1);
    }
  }

  function XorShift(x: u64, s: nat): u64 {
    Pow2Of64();
    XorFits(x, Shifted(x, s), 64);
    Xor(x, Shifted(x, s))
  }

  /** The inverse of XorShift, for shifts of more than a third of the width. */
  function XorUnshift(x: u64, s: nat): u64 {
    Pow2Of64();
    XorFits(XorShift(x, s), Shifted(x, s + s), 64);
    Xor(XorShift(x, s), Shifted(x, s + s))
  }

  lemma XorShiftBit(x: u64, s: nat, k: nat)
    ensures Bit(XorShift(x, s), k) <==> Bit(x, k) != Bit(x, s + k)
  {
    hide Bit;
    XorBit(x, Shifted(x, s), k);
    ShiftedBit(x, s, k);
  }

  lemma XorUnshiftBit(x: u64, s: nat, k: nat)
    ensures Bit(XorUnshift(x, s), k) <==> (Bit(x, k) != Bit(x, s + k)) != Bit(x, s + s + k)
  {
    hide Bit, XorShift;
    XorShiftBit(x, s, k);
    XorBit(XorShift(x, s), Shifted(x, s + s), k);
    ShiftedBit(x, s + s, k);
  }

  lemma XorShiftUndone(x: u64, s: nat)
    requires 3 * s >= 64
    ensures XorUnshift(XorShift(x, s), s) == x && XorShift(XorUnshift(x, s), s) == x
  {
    hide Bit, XorShift, XorUnshift;
    Pow2Of64();
    var y, z := XorShift(x, s), XorUnshift(x, s);
    forall k: nat | k < 64
      ensures Bit(XorUnshift(y, s), k) == Bit(x, k) == Bit(XorShift(z, s), k)
    {
      XorUnshiftBit(y, s, k);
      XorShiftBit(x, s, k);
      XorShiftBit(x, s, s + k);
      XorShiftBit(x, s, s + s + k);
      XorShiftBit(z, s, k);
      XorUnshiftBit(x, s, k);
      XorUnshiftBit(x, s, s + k);
      NoHighBits(x, 64, s + s + s + k);
    }
    BitsTell(XorUnshift(y, s), x, 64);
    BitsTell(XorShift(z, s), x, 64);
  }

  /** Multiplication that wraps around. */
  function WrappingMul(x: u64, c: u64): u64 {
    x * c % TWO64
  }

  lemma WrappingMulUndone(x: u64, c: u64, d: u64, q: nat)
    requires c * d == q * TWO64 + 1
    ensures WrappingMul(WrappingMul(x, c), d) == x
  {
    var p := x * c / TWO64;
    var y := WrappingMul(x, c);
    assert y == x * c - p * TWO64;
    assert y * d == x * (c * d) - p * d * TWO64;
    assert y * d == (x * q - p * d) * TWO64 + x;
    var k := x * q - p * d;
    if k < 0 {
      MulAtLeast(-k, TWO64);
    }
    DivModIs(y * d, TWO64, k, x);
  }

  const FIRST: u64 := 0xbf58476d1ce4e5b9
  const SECOND: u64 := 0x94d049bb133111eb
  /** Their inverses modulo 2^64. */
  const FIRST_INVERSE: u64 := 0x96de1b173f119089
  const SECOND_INVERSE: u64 := 0x319642b2d24d8ec3

  lemma InverseConstants()
    ensures FIRST * FIRST_INVERSE % TWO64 == 1 && SECOND * SECOND_INVERSE % TWO64 == 1
  {
  }

  lemma MultiplyBack(x: u64)
    ensures WrappingMul(WrappingMul(x, FIRST), FIRST_INVERSE) == x
    ensures WrappingMul(WrappingMul(x, FIRST_INVERSE), FIRST) == x
    ensures WrappingMul(WrappingMul(x, SECOND), SECOND_INVERSE) == x
    ensures WrappingMul(WrappingMul(x, SECOND_INVERSE), SECOND) == x
  {
    hide WrappingMul;
    InverseConstants();
    var p, q := FIRST * FIRST_INVERSE / TWO64, SECOND * SECOND_INVERSE / TWO64;
    WrappingMulUndone(x, FIRST, FIRST_INVERSE, p);
    WrappingMulUndone(x, FIRST_INVERSE, FIRST, p);
    WrappingMulUndone(x, SECOND, SECOND_INVERSE, q);
    WrappingMulUndone(x, SECOND_INVERSE, SECOND, q);
  }

  /** Mixes the bits of a position. */
  function BijectiveScramble(x: u64): u64 {
    XorShift(WrappingMul(XorShift(WrappingMul(XorShift(x, 30), FIRST), 27), SECOND), 31)
  }

  function Unscramble(x: u64): u64 {
    XorUnshift(WrappingMul(XorUnshift(WrappingMul(XorUnshift(x, 31), SECOND_INVERSE), 27), FIRST_INVERSE), 30)
  }

  /** The scramble is one-to-one and onto. */
  lemma ScrambleIsBijective(x: u64)
    ensures Unscramble(BijectiveScramble(x)) == x
    ensures BijectiveScramble(Unscramble(x)) == x
  {
    hide XorShift, XorUnshift, WrappingMul;
    var a := XorShift(x, 30);
    var b := WrappingMul(a, FIRST);
    var c := XorShift(b, 27);
    var d := WrappingMul(c, SECOND);
    XorShiftUndone(x, 30);
    MultiplyBack(a);
    XorShiftUndone(b, 27);
    MultiplyBack(c);
    XorShiftUndone(d, 31);
    var e := XorUnshift(x, 31);
    var f := WrappingMul(e, SECOND_INVERSE);
    var g := XorUnshift(f, 27);
    var i := WrappingMul(g, FIRST_INVERSE);
    XorShiftUndone(x, 31);
    MultiplyBack(e);
    XorShiftUndone(f, 27);
    MultiplyBack(g);
    XorShiftUndone(i, 30);
  }

  function BigEndian(x: u64): (s: Bytes)
    ensures |s| == 8
  {
    Shape.Reverse(Le(x, 8))
  }

  lemma BigEndianTells(x: u64, y: u64)
    requires BigEndian(x) == BigEndian(y)
    ensures x == y
  {
    hide Le, FromLe;
    assert forall k :: 0 <= k < 8 ==> Le(x, 8)[k] == BigEndian(x)[7 - k] && Le(y, 8)[k] == BigEndian(y)[7 - k];
    assert Le(x, 8) == Le(y, 8);
    Limits();
    LeRoundTrip(x, 8);
    LeRoundTrip(y, 8);
  }

  /** Byte k of a position stands for its digit of weight 256^(7 - k). */
  lemma BigEndianDigit(x: u64, k: nat)
    requires k < 8
    ensures Limit(7 - k) > 0 && BigEndian(x)[k] == x / Limit(7 - k) % 256
  {
    hide Le;
    LeDigit(x, 8, 7 - k);
  }

  /** Digit k of y is the exclusive or of the digits k and k + s of x. */
  ghost predicate IsXorShift(x: u64, s: nat, y: u64) {
    forall k: nat :: k < 64 ==> (Bit(y, k) <==> Bit(x, k) != Bit(x, k + s))
  }

  lemma XorShiftIs(x: u64, s: nat)
    ensures IsXorShift(x, s, XorShift(x, s))
  {
    hide Bit, XorShift;
    forall k: nat | k < 64
      ensures Bit(XorShift(x, s), k) <==> Bit(x, k) != Bit(x, k + s)
    {
      XorShiftBit(x, s, k);
      assert s + k == k + s;
    }
  }

  /** The scramble in digits and numbers: three exclusive ors of a word with itself, shifted by 30, 27 and
      31, and a wrapping product after each of the first two. */
  lemma ScrambleIs(x: u64) returns (a: u64, b: u64)
    ensures IsXorShift(x, 30, a)
    ensures IsXorShift(a * 0xbf58476d1ce4e5b9 % 0x1_0000_0000_0000_0000, 27, b)
    ensures IsXorShift(b * 0x94d049bb133111eb % 0x1_0000_0000_0000_0000, 31, BijectiveScramble(x))
  {
    hide IsXorShift, XorShift;
    a := XorShift(x, 30);
    b := XorShift(WrappingMul(a, FIRST), 27);
    XorShiftIs(x, 30);
    XorShiftIs(WrappingMul(a, FIRST), 27);
    XorShiftIs(WrappingMul(b, SECOND), 31);
  }

  type Key = Bytes

  /** Where a storage keeps its cells. */
  datatype Place = Place(prefix: Key, hashing: bool) {
    function CreateKey(position: u64): (key: Key)
      ensures |key| == |prefix| + 8 && prefix <= key
    {
      prefix + BigEndian(if hashing then BijectiveScramble(position) else position)
    }

    /** Keys that could belong to this place. */
    predicate Covers(key: Key) {
      |key| == |prefix| + 8 && prefix <= key
    }
  }

  /** The key of a position: the prefix, and then the position, or what it is scrambled to, with the
      highest byte first. */
  lemma KeyBytes(place: Place, p: u64, k: nat)
    requires k < 8
    ensures var key := place.CreateKey(p);
      && |key| == |place.prefix| + 8 && key[..|place.prefix|] == place.prefix
      && Limit(7 - k) > 0
      && key[|place.prefix| + k] == (if place.hashing then BijectiveScramble(p) else p) / Limit(7 - k) % 256
  {
    hide BijectiveScramble, BigEndian;
    BigEndianDigit(if place.hashing then BijectiveScramble(p) else p, k);
  }

  /** No two positions share a key, and none shares the key of position 0, that of the metadata. */
  lemma KeysApart(place: Place, p: u64, q: u64)
    requires place.CreateKey(p) == place.CreateKey(q)
    ensures p == q
  {
    hide BijectiveScramble, BigEndian, Unscramble;
    var y, z := if place.hashing then BijectiveScramble(p) else p, if place.hashing then BijectiveScramble(q) else q;
    assert place.CreateKey(p)[|place.prefix|..] == BigEndian(y);
    assert place.CreateKey(q)[|place.prefix|..] == BigEndian(z);
    BigEndianTells(y, z);
    ScrambleIsBijective(p);
    ScrambleIsBijective(q);
  }

  /** Places with different prefixes share no key, not even where one scrambles and the other does not. */
  lemma PlacesApart(place: Place, other: Place, key: Key)
    requires place.Covers(key) && other.Covers(key)
    ensures place.prefix == other.prefix
  {
    assert key[..|place.prefix|] == place.prefix && key[..|other.prefix|] == other.prefix;
  }

  // ----- the storage

  class Database {
    var cells: map<Key, Bytes>
  }

  /** The metadata names the next position; an empty storage has none. */
  ghost predicate NextIs(cells: map<Key, Bytes>, place: Place, next: nat) {
    var key := place.CreateKey(0);
    && 0 < next < TWO64
    && (key in cells <==> next != 1)
    && (next != 1 ==> |cells[key]| >= 8 && FromLe(cells[key][..8]) == next)
  }

  /** An entry that can be read back, and records this position. */
  predicate Belongs(e: Entry, position: nat)
    ensures Belongs(e, position) ==> Writable(e)
  {
    Storable(e) && e.enode.meta.address.position == position
  }

  ghost predicate At(cells: map<Key, Bytes>, place: Place, p: u64, xs: seq<Entry>) {
    var key := place.CreateKey(p);
    && (key in cells <==> p <= |xs|)
    && (0 < p <= |xs| ==> Belongs(xs[p - 1], p) && cells[key] == EncodeEntry(xs[p - 1]))
  }

  /** The cells of a place hold exactly the entries xs, at the positions from 1 on. */
  ghost predicate Holds(cells: map<Key, Bytes>, place: Place, xs: seq<Entry>) {
    NextIs(cells, place, |xs| + 1) && forall p: u64 :: p > 0 ==> At(cells, place, p, xs)
  }

  /** The entry read from the cell of a position. */
  function EntryAt(cells: map<Key, Bytes>, place: Place, p: u64): Result<Entry> {
    var key := place.CreateKey(p);
    if key !in cells then Err(NotFound) else
      var read :- ReadEntry(cells[key], 0, p);
      Ok(read.0)
  }

  /** Every stored entry is read back as it was put. */
  lemma EntryIsRead(cells: map<Key, Bytes>, place: Place, p: u64, xs: seq<Entry>)
    requires p > 0 && At(cells, place, p, xs)
    ensures EntryAt(cells, place, p) == if p <= |xs| then Ok(xs[p - 1]) else Err(NotFound)
  {
    hide Place.CreateKey, ReadEntry, EncodeEntry, Storable;
    if p <= |xs| {
      var bytes := EncodeEntry(xs[p - 1]);
      assert bytes[0..|bytes|] == bytes;
      EntryRoundTrip(bytes, 0, xs[p - 1]);
    }
  }

  ghost predicate SameCell(before: map<Key, Bytes>, after: map<Key, Bytes>, key: Key) {
    (key in before <==> key in after) && (key in before ==> before[key] == after[key])
  }

  /** Only cells of the place differ. */
  ghost predicate SameElsewhere(before: map<Key, Bytes>, after: map<Key, Bytes>, place: Place) {
    forall key: Key :: !place.Covers(key) ==> SameCell(before, after, key)
  }

  /** What happens in one storage cannot be seen in another storage on the same database. */
  lemma OthersUnaffected(before: map<Key, Bytes>, after: map<Key, Bytes>, place: Place, other: Place, xs: seq<Entry>)
    requires SameElsewhere(before, after, place) && place.prefix != other.prefix && Holds(before, other, xs)
    ensures Holds(after, other, xs)
  {
    hide BigEndian, BijectiveScramble, EncodeEntry, Storable;
    forall p: u64
      ensures SameCell(before, after, other.CreateKey(p))
    {
      if place.Covers(other.CreateKey(p)) {
        PlacesApart(place, other, other.CreateKey(p));
      }
    }
    forall p: u64 | p > 0
      ensures At(after, other, p, xs)
    {
      assert SameCell(before, after, other.CreateKey(p)) && At(before, other, p, xs);
    }
    assert SameCell(before, after, other.CreateKey(0));
  }

  class RocksDbStorage {
    const db: Database
    const place: Place
    ghost var contents: seq<Entry>

    ghost predicate Valid()
      reads this, db
    {
      Holds(db.cells, place, contents)
    }

    constructor (db: Database, place: Place, ghost contents: seq<Entry>)
      requires Holds(db.cells, place, contents)
      ensures Valid() && this.db == db && this.place == place && this.contents == contents
    {
      this.db := db;
      this.place := place;
      this.contents := contents;
    }

    /** A storage at a place where the database has no cells yet is empty. */
    constructor Fresh(db: Database, place: Place)
      requires forall key: Key :: key in db.cells ==> !place.Covers(key)
      ensures Valid() && this.db == db && this.place == place && contents == []
    {
      this.db := db;
      this.place := place;
      this.contents := [];
      new;
      EmptyPlace(db.cells, place);
    }

    method GetMetadata() returns (r: Option<nat>)
      requires Valid()
      ensures r == if contents == [] then None else Some(|contents| + 1)
    {
      var key := place.CreateKey(0);
      r := if key in db.cells then Some(FromLe(db.cells[key][..8])) else None;
    }

    /** The number goes over the first eight bytes of whatever the cell held. */
    method SetMetadata(next: u64)
      requires next > 0
      modifies db
      ensures NextIs(db.cells, place, next)
      ensures next == 1 ==> place.CreateKey(0) !in db.cells
      ensures next > 1 ==>
        var was := if place.CreateKey(0) in old(db.cells) then old(db.cells)[place.CreateKey(0)] else [];
        && place.CreateKey(0) in db.cells
        && db.cells[place.CreateKey(0)] == Le(next, 8) + if |was| > 8 then was[8..] else []
      ensures forall key :: key != place.CreateKey(0) ==> SameCell(old(db.cells), db.cells, key)
    {
      hide BigEndian, BijectiveScramble, Le, FromLe, Overwrite;
      var key := place.CreateKey(0);
      if next == 1 {
        db.cells := db.cells - {key};
      } else {
        var metadata := if key in db.cells then db.cells[key] else [0, 0, 0, 0, 0, 0, 0, 0];
        Limits();
        LeRoundTrip(next, 8);
        OverwriteStart(metadata, Le(next, 8));
        metadata := Overwrite(metadata, 0, Le(next, 8));
        assert metadata[..8] == Le(next, 8);
        db.cells := db.cells[key := metadata];
      }
    }

    method Last() returns (r: Result<(Option<Entry>, nat)>)
      requires Valid()
      ensures r == Ok(if contents == [] then (None, 1) else (Some(contents[|contents| - 1]), |contents| + 1))
    {
      hide Place.CreateKey, ReadEntry, EncodeEntry, Storable;
      var metadata := GetMetadata();
      match metadata
      case None =>
        r := Ok((None, 1));
      case Some(n) =>
        EntryIsRead(db.cells, place, n - 1, contents);
        var last := EntryAt(db.cells, place, n - 1);
        r := Ok((Some(last.value), n));
    }

    /** Stores an entry and makes its position the last. At the next position of a storage, that is one
        entry more. */
    method Put(position: u64, e: Entry) returns (next: nat)
      requires 0 < position && position + 1 < TWO64 && Writable(e)
      modifies this, db
      ensures next == position + 1 && NextIs(db.cells, place, next)
      ensures place.CreateKey(0) in db.cells && Le(position + 1, 8) <= db.cells[place.CreateKey(0)]
      ensures place.CreateKey(position) in db.cells && db.cells[place.CreateKey(position)] == EncodeEntry(e)
      ensures forall key: Key :: key != place.CreateKey(position) && key != place.CreateKey(0) ==>
        SameCell(old(db.cells), db.cells, key)
      ensures SameElsewhere(old(db.cells), db.cells, place)
      ensures old(Valid()) && position == |old(contents)| + 1 && Belongs(e, position) ==>
        Valid() && contents == old(contents) + [e]
    {
      hide BigEndian, BijectiveScramble, FromLe, Place.CreateKey, EncodeEntry, Storable;
      ghost var before, valid := db.cells, Valid();
      db.cells := db.cells[place.CreateKey(position) := EncodeEntry(e)];
      ghost var between := db.cells;
      OtherKeys(place, 0, position);
      SetMetadata(position + 1);
      OwnKey(place, position);
      OwnKey(place, 0);
      forall key: Key | key != place.CreateKey(position) && key != place.CreateKey(0)
        ensures SameCell(before, db.cells, key)
      {
        assert SameCell(between, db.cells, key);
      }
      assert SameCell(between, db.cells, place.CreateKey(position));
      if valid && position == |contents| + 1 && Belongs(e, position) {
        OneMore(before, db.cells, place, contents, e);
        contents := contents + [e];
      }
      next := position + 1;
    }

    /** Deletes from the position on, as far as there are entries. */
    method Truncate(position: u64) returns (cut: bool)
      requires Valid() && position > 0
      modifies this, db
      ensures Valid() && (cut <==> position <= |old(contents)|)
      ensures contents == if cut then old(contents)[..position - 1] else old(contents)
      ensures cut && position == 1 ==> place.CreateKey(0) !in db.cells
      ensures cut && position > 1 ==>
        place.CreateKey(0) in db.cells && Le(position, 8) <= db.cells[place.CreateKey(0)]
      ensures SameElsewhere(old(db.cells), db.cells, place)
    {
      hide Place.CreateKey, FromLe, EncodeEntry, Storable;
      var metadata := GetMetadata();
      if metadata == None || position >= metadata.value {
        return false;
      }
      ghost var before := db.cells;
      var p: nat := position;
      assert At(before, place, position, contents);
      while place.CreateKey(p) in db.cells
        invariant contents == old(contents) && position <= p <= |contents| + 1 < TWO64
        invariant SameElsewhere(before, db.cells, place)
        invariant SameCell(before, db.cells, place.CreateKey(0))
        invariant forall q: u64 :: q > 0 && !(position <= q < p) ==> SameCell(before, db.cells, place.CreateKey(q))
        invariant forall q: u64 :: position <= q < p ==> place.CreateKey(q) !in db.cells
        decreases |contents| + 1 - p
      {
        ghost var cells := db.cells;
        OwnKey(place, p);
        assert SameCell(before, cells, place.CreateKey(p));
        assert At(before, place, p, contents);
        db.cells := db.cells - {place.CreateKey(p)};
        forall q: u64 | q != p
          ensures SameCell(cells, db.cells, place.CreateKey(q))
        {
          OtherKeys(place, q, p);
        }
        p := p + 1;
      }
      ghost var cells := db.cells;
      SetMetadata(position);
      assert At(before, place, p, contents);
      contents := contents[..position - 1];
      OwnKey(place, 0);
      forall key: Key | !place.Covers(key)
        ensures SameCell(before, db.cells, key)
      {
        assert SameCell(before, cells, key) && SameCell(cells, db.cells, key);
      }
      forall q: u64 | q > 0
        ensures At(db.cells, place, q, contents)
      {
        OtherKeys(place, q, 0);
        assert SameCell(cells, db.cells, place.CreateKey(q));
        assert At(before, place, q, old(contents));
      }
      cut := true;
    }

    method Read(position: u64) returns (r: Result<Entry>)
      requires Valid()
      ensures r == EntryAt(db.cells, place, position)
      ensures position > 0 ==> r == if position <= |contents| then Ok(contents[position - 1]) else Err(NotFound)
    {
      hide Place.CreateKey, ReadEntry, EncodeEntry, Storable;
      if position > 0 {
        EntryIsRead(db.cells, place, position, contents);
      }
      r := EntryAt(db.cells, place, position);
    }

    /** Passes up to count entries from a position on to the callback, and stops where there is none. */
    method Scan<A(!new)>(position: u64, count: nat, init: A, f: (A, Entry) -> Option<A>) returns (r: Result<(A, nat)>)
      requires Valid() && position > 0
      ensures var start := if position <= |contents| then position - 1 else |contents|;
        var end := if start + count <= |contents| then start + count else |contents|;
        && (r == match Fold(contents[start..end], init, f)
                 case None => Err(Callback)
                 case Some(a) => Ok((a, end - start)))
        && (r == Err(Callback) <==> Refused(contents[start..end], init, f))
    {
      hide Refused;
      hide Place.CreateKey, FromLe, ReadEntry, EncodeEntry, Storable, EntryAt;
      ghost var start := if position <= |contents| then position - 1 else |contents|;
      ghost var end := if start + count <= |contents| then start + count else |contents|;
      FoldRefused(contents[start..end], init, f);
      var a, read, p := init, 0, position;
      while read < count
        invariant read <= end - start && p == position + read < TWO64
        invariant Fold(contents[start..end], init, f) == Fold(contents[start + read..end], a, f)
        decreases count - read
      {
        assert At(db.cells, place, p, contents);
        EntryIsRead(db.cells, place, p, contents);
        if place.CreateKey(p) !in db.cells {
          break;
        }
        var entry := EntryAt(db.cells, place, p);
        ghost var s := contents[start + read..end];
        match f(a, entry.value) {
          case None =>
            return Err(Callback);
          case Some(b) =>
            a := b;
        }
        assert s[1..] == contents[start + read + 1..end];
        read := read + 1;
        p := p + 1;
      }
      r := Ok((a, read));
    }
  }

  /** Where no cell belongs to a place, nothing is stored. */
  lemma EmptyPlace(cells: map<Key, Bytes>, place: Place)
    requires forall key: Key :: key in cells ==> !place.Covers(key)
    ensures Holds(cells, place, [])
  {
    hide Place.CreateKey, FromLe;
    OwnKey(place, 0);
    forall p: u64 | p > 0
      ensures At(cells, place, p, [])
    {
      OwnKey(place, p);
    }
  }

  /** An entry put at the next position is one entry more. */
  lemma OneMore(before: map<Key, Bytes>, after: map<Key, Bytes>, place: Place, xs: seq<Entry>, e: Entry)
    requires Holds(before, place, xs) && |xs| + 2 < TWO64 && NextIs(after, place, |xs| + 2)
    requires Belongs(e, |xs| + 1) && place.CreateKey(|xs| + 1) in after
    requires after[place.CreateKey(|xs| + 1)] == EncodeEntry(e)
    requires forall key: Key :: key != place.CreateKey(|xs| + 1) && key != place.CreateKey(0) ==>
      SameCell(before, after, key)
    ensures Holds(after, place, xs + [e])
  {
    hide BigEndian, BijectiveScramble, FromLe, Place.CreateKey, EncodeEntry, Storable;
    forall p: u64 | p > 0
      ensures At(after, place, p, xs + [e])
    {
      assert At(before, place, p, xs);
      OtherKeys(place, p, |xs| + 1);
      OtherKeys(place, p, 0);
      var ys := xs + [e];
      if p <= |xs| {
        assert ys[p - 1] == xs[p - 1];
      }
      if p != |xs| + 1 {
        assert SameCell(before, after, place.CreateKey(p));
      }
    }
  }

  lemma OwnKey(place: Place, p: u64)
    ensures place.Covers(place.CreateKey(p))
  {
    hide BigEndian, BijectiveScramble;
  }

  lemma OtherKeys(place: Place, p: u64, q: u64)
    ensures place.CreateKey(p) == place.CreateKey(q) <==> p == q
  {
    hide Place.CreateKey;
    if place.CreateKey(p) == place.CreateKey(q) {
      KeysApart(place, p, q);
    }
  }
}
