/** Whole runs of a Slate: appends and truncations in any order, reopening, earlier revisions, and queries
    between appends. */
module Runs {
  import opened Words
  import opened Errors
  import opened Merkle
  import opened Entries
  import opened Device
  import opened Serialize
  import opened Storage
  import opened Journal
  import opened Caching
  import opened Sampling
  import opened Querying
  import opened SlateModel
  import Shape

  datatype Op = Push(value: Bytes) | Cut(i: u64)

  /** What a Slate holds after one operation, and after many. */
  function Next(xs: seq<Bytes>, op: Op): seq<Bytes> {
    match op
    case Push(value) => if |value| > MAX_PAYLOAD_SIZE then xs else xs + [value]
    case Cut(i) => if 0 < i <= |xs| then xs[..i - 1] else xs
  }

  function After(xs: seq<Bytes>, ops: seq<Op>): seq<Bytes>
    decreases |ops|
  {
    if ops == [] then xs else After(Next(xs, ops[0]), ops[1..])
  }

  /** The log never outgrows the memory. */
  predicate Room(xs: seq<Bytes>, ops: seq<Op>)
    decreases |ops|
  {
    Fits(xs) && (ops != [] ==> Room(Next(xs, ops[0]), ops[1..]))
  }

  function Pushes(values: seq<Bytes>): seq<Op> {
    seq(|values|, k requires 0 <= k < |values| => Push(values[k]))
  }

  lemma {:induction false} AfterTwo(xs: seq<Bytes>, ops: seq<Op>, more: seq<Op>)
    ensures After(xs, ops + more) == After(After(xs, ops), more)
    decreases |ops|
  {
    if ops == [] {
      assert ops + more == more;
    } else {
      assert (ops + more)[1..] == ops[1..] + more;
      AfterTwo(Next(xs, ops[0]), ops[1..], more);
    }
  }

  lemma {:induction false} AfterPushes(xs: seq<Bytes>, values: seq<Bytes>)
    requires forall k :: 0 <= k < |values| ==> |values[k]| <= MAX_PAYLOAD_SIZE
    ensures After(xs, Pushes(values)) == xs + values
    decreases |values|
  {
    if values != [] {
      assert Pushes(values)[1..] == Pushes(values[1..]);
      AfterPushes(xs + [values[0]], values[1..]);
      assert xs + values == xs + [values[0]] + values[1..];
    }
  }

  /** What an operation on a Slate holding xs answers. */
  datatype Outcome = Pushed(root: Result<MetaInfo>) | WasCut(cut: Result<bool>)

  function OutcomeOf(h: Hashing, xs: seq<Bytes>, op: Op): Outcome {
    match op
    case Push(value) =>
      if |value| > MAX_PAYLOAD_SIZE then Pushed(Err(TooLargePayload(|value|)))
      else
        var address := Address(|xs| + 1, Shape.Height(|xs| + 1), Position(xs, |xs| + 1));
        Pushed(Ok(MetaInfo(address, MerkleHash(h, xs + [value]))))
    case Cut(i) => WasCut(Ok(0 < i <= |xs|))
  }

  function Outcomes(h: Hashing, xs: seq<Bytes>, ops: seq<Op>): (r: seq<Outcome>)
    ensures |r| == |ops|
    decreases |ops|
  {
    if ops == [] then [] else [OutcomeOf(h, xs, ops[0])] + Outcomes(h, Next(xs, ops[0]), ops[1..])
  }

  lemma {:induction false} OutcomesTwo(h: Hashing, xs: seq<Bytes>, ops: seq<Op>, more: seq<Op>)
    ensures Outcomes(h, xs, ops + more) == Outcomes(h, xs, ops) + Outcomes(h, After(xs, ops), more)
    decreases |ops|
  {
    hide OutcomeOf, Next;
    if ops == [] {
      assert ops + more == more;
    } else {
      assert (ops + more)[1..] == ops[1..] + more;
      OutcomesTwo(h, Next(xs, ops[0]), ops[1..], more);
    }
  }

  /** Truncating at i forgets entry i and everything after it: what follows then goes, and answers, as if
      those values had never been appended. */
  lemma TruncateForgets(h: Hashing, xs: seq<Bytes>, values: seq<Bytes>, i: u64, later: seq<Op>)
    requires forall k :: 0 <= k < |values| ==> |values[k]| <= MAX_PAYLOAD_SIZE
    requires |xs| < i <= |xs| + |values|
    ensures var kept := Pushes(values[..i - 1 - |xs|]); var all := Pushes(values) + [Cut(i)];
      && After(xs, all + later) == After(xs, kept + later)
      && Outcomes(h, xs, all + later)[|all|..] == Outcomes(h, xs, kept + later)[|kept|..]
  {
    hide OutcomeOf, Outcomes;
    var n := i - 1 - |xs|;
    var kept, all := Pushes(values[..n]), Pushes(values) + [Cut(i)];
    AfterTwo(xs, all, later);
    AfterTwo(xs, Pushes(values), [Cut(i)]);
    AfterTwo(xs, kept, later);
    AfterPushes(xs, values);
    AfterPushes(xs, values[..n]);
    assert [Cut(i)][1..] == [];
    assert (xs + values)[..i - 1] == xs + values[..n];
    assert After(xs, all) == After(xs, kept);
    OutcomesTwo(h, xs, all, later);
    OutcomesTwo(h, xs, kept, later);
  }

  /** Two Slates with the same payloads agree in cache, position and every byte of the log, whatever
      they went through. */
  lemma StateIsPayloads(a: Slate, b: Slate)
    requires a.Valid() && b.Valid() && a.hashing == b.hashing && a.cache.level == b.cache.level
    requires a.payloads == b.payloads
    ensures a.cache == b.cache && a.position == b.position
    ensures a.storage.device.buffer.bytes == b.storage.device.buffer.bytes
  {
    hide CacheOf, LogBytesOf, Position, Fits;
  }

  lemma {:induction false} RoomAt(xs: seq<Bytes>, ops: seq<Op>, k: nat)
    requires Room(xs, ops) && k <= |ops|
    ensures Room(After(xs, ops[..k]), ops[k..])
    decreases k
  {
    hide Fits;
    if k > 0 {
      RoomAt(Next(xs, ops[0]), ops[1..], k - 1);
      assert ops[1..][..k - 1] == ops[..k][1..] && ops[1..][k - 1..] == ops[k..];
    } else {
      assert ops[..0] == [] && ops[0..] == ops;
    }
  }

  lemma AfterOneMore(xs: seq<Bytes>, ops: seq<Op>, k: nat)
    requires k < |ops|
    ensures After(xs, ops[..k + 1]) == Next(After(xs, ops[..k]), ops[k])
  {
    assert ops[..k + 1] == ops[..k] + [ops[k]];
    AfterTwo(xs, ops[..k], [ops[k]]);
    assert [ops[k]][1..] == [];
  }

  /** Any run of appends and truncations leaves the Slate holding, and answers, what the run says. */
  method Run(slate: Slate, ops: seq<Op>) returns (outcomes: seq<Outcome>)
    requires slate.Valid() && !slate.storage.device.readOnly && Room(slate.payloads, ops)
    modifies slate, slate.storage, slate.storage.device`position, slate.storage.device.buffer
    ensures slate.Valid() && slate.payloads == After(old(slate.payloads), ops)
    ensures slate.cache.level == old(slate.cache.level)
    ensures outcomes == Outcomes(slate.hashing, old(slate.payloads), ops)
  {
    hide Fits, CacheOf, LogBytesOf, Position, EntryOf, MerkleHash, After, Room, Outcomes, OutcomeOf;
    ghost var h, xs := slate.hashing, slate.payloads;
    StartOfRun(xs, ops);
    outcomes := [];
    for k := 0 to |ops|
      invariant slate.Valid() && slate.payloads == After(xs, ops[..k])
      invariant slate.cache.level == old(slate.cache.level)
      invariant outcomes == Outcomes(h, xs, ops[..k])
    {
      RoomAt(xs, ops, k);
      AfterOneMore(xs, ops, k);
      OutcomesOneMore(h, xs, ops, k);
      var outcome := Step(slate, ops[k], ops[k..]);
      outcomes := outcomes + [outcome];
    }
    assert ops[..|ops|] == ops;
  }

  method Step(slate: Slate, op: Op, ghost ops: seq<Op>) returns (outcome: Outcome)
    requires slate.Valid() && !slate.storage.device.readOnly
    requires ops != [] && ops[0] == op && Room(slate.payloads, ops)
    modifies slate, slate.storage, slate.storage.device`position, slate.storage.device.buffer
    ensures slate.Valid() && slate.payloads == Next(old(slate.payloads), op)
    ensures slate.cache.level == old(slate.cache.level)
    ensures outcome == OutcomeOf(slate.hashing, old(slate.payloads), op)
  {
    hide Fits, CacheOf, LogBytesOf, Position, EntryOf, MerkleHash, Room;
    RoomNext(slate.payloads, ops);
    match op
    case Push(value) =>
      var root := slate.Append(value);
      outcome := Pushed(root);
    case Cut(i) =>
      var cut := slate.Truncate(i);
      outcome := WasCut(cut);
  }

  lemma OutcomesOneMore(h: Hashing, xs: seq<Bytes>, ops: seq<Op>, k: nat)
    requires k < |ops|
    ensures Outcomes(h, xs, ops[..0]) == []
    ensures Outcomes(h, xs, ops[..k + 1]) == Outcomes(h, xs, ops[..k]) + [OutcomeOf(h, After(xs, ops[..k]), ops[k])]
  {
    hide OutcomeOf, After, Next;
    assert ops[..k + 1] == ops[..k] + [ops[k]];
    OutcomesTwo(h, xs, ops[..k], [ops[k]]);
  }

  /** Two Slates in the same state: one appends the values, truncates at i and goes on; the other appends
      only the values before i and goes on. They answer the same from there on, and end up with the same
      cache, position and log. */
  method WithAndWithout(a: Slate, b: Slate, values: seq<Bytes>, i: u64, later: seq<Op>)
    returns (afterCut: seq<Outcome>, never: seq<Outcome>)
    requires a.Valid() && b.Valid() && !a.storage.device.readOnly && !b.storage.device.readOnly
    requires a.hashing == b.hashing && a.cache.level == b.cache.level && a.payloads == b.payloads
    requires a != b && a.storage != b.storage && a.storage.device != b.storage.device
    requires a.storage.device.buffer != b.storage.device.buffer
    requires forall k :: 0 <= k < |values| ==> |values[k]| <= MAX_PAYLOAD_SIZE
    requires |a.payloads| < i <= |a.payloads| + |values|
    requires Room(a.payloads, Pushes(values) + [Cut(i)] + later)
    requires Room(b.payloads, Pushes(values[..i - 1 - |b.payloads|]) + later)
    modifies a, a.storage, a.storage.device`position, a.storage.device.buffer
    modifies b, b.storage, b.storage.device`position, b.storage.device.buffer
    ensures a.Valid() && b.Valid() && a.cache == b.cache && a.position == b.position
    ensures a.storage.device.buffer.bytes == b.storage.device.buffer.bytes
    ensures |later| == |afterCut| && afterCut == never
  {
    hide Fits, CacheOf, LogBytesOf, Position, After, Room, Outcomes, OutcomeOf;
    ghost var h, xs, n := a.hashing, a.payloads, |a.payloads|;
    var before := a.cache.Revision();
    RevisionIs(h, xs, a.cache.level);
    TruncateForgets(h, xs, values, i, later);
    var all := Pushes(values) + [Cut(i)];
    var kept := Pushes(values[..i - 1 - before]);
    var outcomes := Run(a, all + later);
    afterCut := outcomes[|all|..];
    outcomes := Run(b, kept + later);
    never := outcomes[|kept|..];
    StateIsPayloads(a, b);
  }

  lemma StartOfRun(xs: seq<Bytes>, ops: seq<Op>)
    ensures After(xs, ops[..0]) == xs
  {
  }

  lemma RoomNext(xs: seq<Bytes>, ops: seq<Op>)
    requires ops != [] && Room(xs, ops)
    ensures Fits(Next(xs, ops[0]))
  {
    hide Fits;
  }

  /** Opening the device a Slate works on, at any time, finds everything it holds. */
  method Reopen(slate: Slate) returns (again: Slate)
    requires slate.Valid()
    modifies slate.storage.device.buffer
    ensures fresh(again) && again.Valid() && again.payloads == slate.payloads
    ensures again.cache == slate.cache && again.position == slate.position
    ensures again.storage.device.buffer == slate.storage.device.buffer
    ensures again.storage.device.buffer.bytes == old(slate.storage.device.buffer.bytes)
  {
    hide Fits, CacheOf, LogBytesOf, Position;
    var device := new MemoryDevice.With(slate.storage.device.buffer, false);
    var storage := new BlockStorage(slate.hashing, device);
    AlreadyFormatted(slate.hashing, slate.payloads);
    var reopened := Open(slate.hashing, storage, slate.cache.level, slate.payloads);
    again := reopened.value;
  }

  lemma AlreadyFormatted(h: Hashing, xs: seq<Bytes>)
    requires Fits(xs)
    ensures LogBytesOf(h, xs) != [] && Formatted(LogBytesOf(h, xs)) == LogBytesOf(h, xs)
  {
    hide LogBytes, Position;
    LogLength(h, xs);
    PositionAbove(xs, |xs| + 1);
  }

  // ----- history

  /** The root a Slate holding xs reports. */
  function RootOf(h: Hashing, xs: seq<Bytes>): MetaInfo
    requires xs != []
  {
    MetaInfo(Address(|xs|, Shape.Height(|xs|), Position(xs, |xs|)), MerkleHash(h, xs))
  }

  /** The payloads of the revision that value k completes. */
  function Revision(xs: seq<Bytes>, values: seq<Bytes>, k: nat): (ys: seq<Bytes>)
    requires k < |values|
    ensures ys != []
  {
    xs + values[..k + 1]
  }

  method AppendAll(slate: Slate, values: seq<Bytes>) returns (roots: seq<MetaInfo>)
    requires slate.Valid() && !slate.storage.device.readOnly
    requires forall k :: 0 <= k <= |values| ==> Fits(slate.payloads + values[..k])
    modifies slate, slate.storage, slate.storage.device`position, slate.storage.device.buffer
    ensures slate.Valid() && slate.payloads == old(slate.payloads) + values
    ensures slate.cache.level == old(slate.cache.level) && |roots| == |values|
    ensures forall k :: 0 <= k < |values| ==>
      roots[k] == RootOf(slate.hashing, Revision(old(slate.payloads), values, k))
  {
    hide CacheOf, LogBytesOf, Position, EntryOf, MerkleHash, Fits;
    roots := [];
    ghost var xs := slate.payloads;
    for k := 0 to |values|
      invariant slate.Valid() && slate.payloads == xs + values[..k]
      invariant slate.cache.level == old(slate.cache.level) && |roots| == k
      invariant forall l :: 0 <= l < k ==> roots[l] == RootOf(slate.hashing, Revision(xs, values, l))
    {
      assert slate.payloads + [values[k]] == xs + values[..k + 1];
      SmallEnough(slate.payloads, values[k]);
      var root := slate.Append(values[k]);
      RootStays(slate.hashing, slate.payloads);
      roots := roots + [root.value];
    }
    assert values[..|values|] == values;
  }

  lemma SmallEnough(xs: seq<Bytes>, value: Bytes)
    requires Fits(xs + [value])
    ensures |value| <= MAX_PAYLOAD_SIZE
  {
    hide Position;
    var ys := xs + [value];
    assert ys[|xs|] == value;
  }

  lemma RootStays(h: Hashing, xs: seq<Bytes>)
    requires xs != []
    ensures Position(xs, |xs|) == Position(xs[..|xs| - 1], |xs|)
  {
    PositionPrefix(xs, xs[..|xs| - 1], |xs|);
  }

  /** The root of an earlier revision is the one its append returned. */
  method RememberedRoot(slate: Slate, values: seq<Bytes>, k: nat)
    returns (appended: MetaInfo, remembered: Option<MetaInfo>)
    requires slate.Valid() && !slate.storage.device.readOnly && k < |values|
    requires forall l :: 0 <= l <= |values| ==> Fits(slate.payloads + values[..l])
    modifies slate, slate.storage, slate.storage.device`position, slate.storage.device.buffer
    ensures slate.Valid() && slate.payloads == old(slate.payloads) + values
    ensures remembered == Some(appended)
  {
    hide CacheOf, LogBytesOf, Position, EntryOf, MerkleHash, Fits;
    ghost var xs := slate.payloads;
    var n := slate.Root();
    var before := match n case Some(root) => root.address.i case None => 0;
    var roots := AppendAll(slate, values);
    appended := roots[k];
    assert slate.payloads[..|xs| + k + 1] == Revision(xs, values, k);
    InWords(slate.payloads);
    var snapshot := slate.SnapshotAt(before + k + 1);
    SnapshotRoot(slate.hashing, Revision(xs, values, k), slate.cache.level);
    remembered := snapshot.value.cache.Root();
  }

  /** A query on any earlier revision. */
  method QueryAt(slate: Slate, revision: u64) returns (query: Query)
    requires slate.Valid() && 0 < revision <= |slate.payloads|
    ensures fresh(query) && fresh(query.cursor) && query.Valid() && query.hashing == slate.hashing
    ensures query.payloads == slate.payloads[..revision] && query.cursor.buffer == slate.storage.device.buffer
  {
    hide CacheOf, LogBytesOf, Position, EntryOf, Fits, Holds;
    var snapshot := slate.SnapshotAt(revision);
    HoldsPrefix(slate.hashing, slate.payloads, revision);
    CacheLevel(slate.hashing, slate.payloads[..revision], slate.cache.level);
    query := StartQuery(slate.hashing, snapshot.value, slate.payloads[..revision]);
  }

  lemma InWords(xs: seq<Bytes>)
    requires Fits(xs)
    ensures |xs| < TWO64
  {
    hide Position;
    FitsInWords(xs, |xs| + 1);
  }

  lemma SnapshotRoot(h: Hashing, xs: seq<Bytes>, level: nat)
    requires xs != []
    ensures CacheOf(h, xs, level).Root() == Some(RootOf(h, xs))
  {
    hide Position, EntryOf, RootMetasOf, Shape.Inodes, MerkleHash;
    NewestIsCached(h, xs, level);
    RootOfEntry(h, xs);
  }

  // ----- isolation

  /** A query on an earlier revision stays valid while the Slate grows. */
  lemma QueryStays(slate: Slate, query: Query)
    requires slate.Valid() && query.hashing == slate.hashing && query.cursor.buffer == slate.storage.device.buffer
    requires query.payloads <= slate.payloads
    requires query.cache == CacheOf(query.hashing, query.payloads, query.cache.level)
    ensures query.Valid()
  {
    hide CacheOf, LogBytesOf, Position, EntryOf, Fits;
    HoldsPrefix(slate.hashing, slate.payloads, |query.payloads|);
    assert slate.payloads[..|query.payloads|] == query.payloads;
  }

  datatype Event = Appends(value: Bytes) | Gets(i: u64) | Samples(i: u64) | Scans(i: u64, j: u64)

  datatype Answer =
    | Appended
    | Got(value: Option<Bytes>)
    | Sampled(sample: Option<StratumSample>)
    | Scanned(entries: seq<Entry>)

  function Collect(a: seq<Entry>, e: Entry): Option<seq<Entry>> {
    Some(a + [e])
  }

  lemma {:induction false} CollectAll(s: seq<Entry>, a: seq<Entry>)
    ensures Fold(s, a, Collect) == Some(a + s)
    decreases |s|
  {
    if s != [] {
      CollectAll(s[1..], a + [s[0]]);
      assert a + [s[0]] + s[1..] == a + s;
    } else {
      assert a + s == a;
    }
  }

  /** What a query on the revision ys answers; appends do not come into it. */
  function AnswerOf(h: Hashing, ys: seq<Bytes>, e: Event): Answer
    requires Fits(ys)
  {
    InWords(ys);
    match e
    case Appends(_) => Appended
    case Gets(i) => Got(if 0 < i <= |ys| then Some(ys[i - 1]) else None)
    case Samples(i) => Sampled(if 0 < i <= |ys| then Some(SampleOf(h, ys, i)) else None)
    case Scans(i, j) =>
      var (lo, hi) := Bounds(|ys|, i, j);
      Scanned(if lo > hi then [] else LogOf(h, ys)[lo - 1..hi])
  }

  function Grown(events: seq<Event>): seq<Bytes> {
    if events == [] then [] else
      var last := events[|events| - 1];
      Grown(events[..|events| - 1]) + if last.Appends? then [last.value] else []
  }

  /** However appends to the Slate and reads of a snapshot are interleaved, every read answers from the
      payloads of the snapshot, and the Slate ends up with everything appended. */
  method Interleave(slate: Slate, events: seq<Event>) returns (answers: seq<Answer>)
    requires slate.Valid() && !slate.storage.device.readOnly
    requires forall k :: 0 <= k <= |events| ==> Fits(slate.payloads + Grown(events[..k]))
    modifies slate, slate.storage, slate.storage.device`position, slate.storage.device.buffer
    ensures slate.Valid() && slate.payloads == old(slate.payloads) + Grown(events)
    ensures |answers| == |events| && Fits(old(slate.payloads))
    ensures forall k :: 0 <= k < |events| ==> answers[k] == AnswerOf(slate.hashing, old(slate.payloads), events[k])
  {
    hide CacheOf, LogBytesOf, Position, EntryOf, MerkleHash, Fits, SampleOf, Holds, Bounds;
    ghost var ys := slate.payloads;
    var snapshot := slate.TakeSnapshot();
    HoldsOwn(slate.hashing, ys, slate.storage.device.buffer.bytes);
    CacheLevel(slate.hashing, ys, slate.cache.level);
    var query := StartQuery(slate.hashing, snapshot, ys);
    answers := [];
    assert ys + Grown(events[..0]) == ys;
    for k := 0 to |events|
      invariant slate.Valid() && slate.payloads == ys + Grown(events[..k])
      invariant query.Valid() && query.cursor.buffer == slate.storage.device.buffer
      invariant |answers| == k
      invariant forall l :: 0 <= l < k ==> answers[l] == AnswerOf(slate.hashing, ys, events[l])
    {
      GrownOneMore(events, k);
      match events[k] {
        case Appends(value) =>
          assert slate.payloads + [value] == ys + Grown(events[..k + 1]);
          SmallEnough(slate.payloads, value);
          var _ := slate.Append(value);
          QueryStays(slate, query);
          answers := answers + [Appended];
        case _ =>
          var answer := Answered(query, events[k]);
          answers := answers + [answer];
          assert slate.payloads == ys + Grown(events[..k + 1]);
      }
    }
    assert events[..|events|] == events;
  }

  lemma GrownOneMore(events: seq<Event>, k: nat)
    requires k < |events|
    ensures Grown(events[..k + 1]) == Grown(events[..k]) + if events[k].Appends? then [events[k].value] else []
  {
    assert events[..k + 1][..k] == events[..k];
  }

  method Answered(query: Query, e: Event) returns (answer: Answer)
    requires query.Valid() && Fits(query.payloads) && !e.Appends?
    modifies query.cursor`position, query.cursor`readCount
    ensures query.Valid() && answer == AnswerOf(query.hashing, query.payloads, e)
  {
    hide CacheOf, Position, EntryOf, MerkleHash, Fits, SampleOf, Holds, Fold, LogOf;
    match e
    case Gets(i) =>
      var value := query.Get(i);
      answer := Got(value.value);
    case Samples(i) =>
      var sample := query.GetSample(i);
      answer := Sampled(sample.value);
    case Scans(i, j) =>
      ScanCollects(query.hashing, query.payloads, i, j);
      var scanned := query.ScanRange(i, j, [], Collect);
      answer := Scanned(scanned.value.0);
  }

  lemma ScanCollects(h: Hashing, xs: seq<Bytes>, i: u64, j: u64)
    ensures var (lo, hi) := Bounds(|xs|, i, j);
      lo <= hi ==> Fold(LogOf(h, xs)[lo - 1..hi], [], Collect) == Some(LogOf(h, xs)[lo - 1..hi])
  {
    hide EntryOf, Fold;
    var (lo, hi) := Bounds(|xs|, i, j);
    if lo <= hi {
      var s := LogOf(h, xs)[lo - 1..hi];
      CollectAll(s, []);
      assert [] + s == s;
    }
  }
}
