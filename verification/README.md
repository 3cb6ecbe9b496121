# Slate, verified

Slate is an append-only Merkle tree, the stratified hash tree, kept in a log. Appending value number `i`
writes one immutable entry `e_i`: the leaf `b_{i,0}` and every inner node `b_{i,j}` that this generation
creates. Reading starts from the newest entry and follows left children from entry to entry.

This project models the library in Dafny and proves that its four layers agree with one plain specification:
a sequence of payloads and a Merkle hash defined by recursion on it.

| layer | files | what it is checked against |
|---|---|---|
| index arithmetic on 64-bit words | `Words`, `Shape`, `Formula`, `Hops`, `Distance` | the tree `T_n`, by binary digits of `n` and `n - 1` |
| storing an entry | `Entries`, `Serialize`, `Checksum`, `Device`, `Storage`, `Journal`, `Layout` | the bytes of a log as a function of the payloads |
| the cache and Slate itself | `Cache`, `Slate`, `Runs` | cache, position and log as functions of the payloads |
| queries and samples | `Merkle`, `Subtree`, `Walks`, `Query`, `Sampling`, `Search`, `Fold` | the payloads and the recursive Merkle hash |
| key-value storages | `MemKvs`, `RocksDb` | a sequence at the positions 1, 2, 3, ... |

The central idea is that nothing in a Slate depends on how it came about: `SlateModel.Slate.Valid` says that
the cache is `CacheOf(payloads)`, the position is `Position(payloads)` and the device holds
`LogBytesOf(payloads)`. Every operation keeps that, so appending, truncating, loading an earlier revision and
reopening the device all give what the same payloads would have given in any other way. Two facts about the
tree carry most of the proofs: the left children of the inodes of generation `i` are exactly the
perfect-subtree roots of generation `i - 1` (`Shape.LeftsAreRoots`), and a left child of `e_p` that lies left
of another left child `e_q` is a left child of `e_q` as well (`Hops.LeftsNest`).

The hash function and the checksum are parameters. Where a result needs that hashes tell inputs apart, it
assumes that the inputs hashed in the trees at hand do not collide (`CollisionFree`), and nothing else. Payloads,
positions and indices have the widths of the program: indices are `u64`, and all results about heights
include height 64. A log is assumed to fit into a byte vector (`Journal.Fits`: fewer than 2^63 bytes, payloads
of at most 0x7FFFFFFF bytes); that is the only limit on the payload sequences of the model.

Callbacks are functions that carry their own state; the ghost parameter `xs` of a method names the payloads
that the stored bytes represent. A panic on data the caller supplies is an error result of the model
(`Panicked`); the panics and unwraps on the library's own data are proved not to be reached.

`dafny verify dfyconfig.toml` checks the whole project.

## Model

| member | source | states |
|---|---|---|
| `Words.AndMask` | src/formula.rs:372-378 | masking with 2^j - 1 keeps exactly the lowest j binary digits |
| `Words.OrPow2` | src/formula.rs:205-212 | or-ing 2^b into a number without digits at or below b adds 2^b |
| `Words.LeadingZerosBitLen` | src/formula.rs:410-413 | leading zeros and the number of digits add up to the width |
| `Words.LowIsMod` | src/formula.rs:372-378 | the digit functions are the remainder and the quotient by 2^e |
| `Words.ShrShl` | src/formula.rs:207 | shifting right and back left clears the low digits and loses nothing at the top of the word |
| `Formula.IMod2e` | src/formula.rs:372-378 | i mod 2^j for every j from 0 to 64, without a shift by the width of the word |
| `Formula.Pow2e` | src/formula.rs:391-394 | 2^j for j below 64, without overflow |
| `Formula.CeilLog2` | src/formula.rs:410-413 | the height of a tree of x leaves, at most 64, for every x > 0 |
| `Formula.FloorLog2` | src/formula.rs:428-431 | the exponent of the largest power of two up to x |
| `Formula.IsPbst` | src/formula.rs:147-149 | a node is perfect when its index is a multiple of 2^j |
| `Formula.Range` | src/formula.rs:185-191 | the first and last leaf below a node; no underflow for any index |
| `Formula.Contains` | src/formula.rs:252-255 | whether a leaf is below a node |
| `Formula.LeafCount` | src/formula.rs:245-247 | the number of leaves below a node |
| `Formula.RootOf` | src/formula.rs:195-200 | a node of generation n that covers the leaves from 1 on |
| `Formula.IsValid` | src/formula.rs:216-241 | for any index and any height, whether the tree has such a node |
| `Formula.SubnodesOf` | src/formula.rs:205-212 | the children found by shifts and masks are those of the tree, up to height 64 |
| `Formula.SubnodesTileParent` | src/formula.rs:205-212 | both children are valid and lower, and their ranges side by side are the parent's range |
| `Formula.PbstRoots` | src/formula.rs:160-173 | the loop lists perfect subtrees of falling heights that tile 1..n |
| `Shape.RootsAreTheTiling` | src/formula.rs:159-173 | there is only one such tiling of 1..n |
| `Formula.CountPbsts` | src/formula.rs:151-157 | there are as many perfect subtrees as ones in n |
| `Formula.CreateEphemeralNodes` | src/formula.rs:125-140 | joining the perfect subtrees from the right gives the joints of the tree |
| `Formula.NewModel` | src/formula.rs:58-64 | the constructed model is the model of generation n |
| `Formula.ModelInodes` | src/formula.rs:88-104 | joints and the spine of the last perfect subtree, reversed, are the inodes of the generation, lowest first |
| `Formula.PerfectInodes` | src/formula.rs:93-101 | the inodes of a perfect subtree halve all the way down |
| `Shape.SpineNodes` | src/formula.rs:86-104 | every inode is a node of its generation with its own children; heights rise; its right child is the inode before it |
| `Shape.InodesAreTheNodes` | src/formula.rs:88-104 | b_{i,h} is an inner node exactly when it is among the inodes of generation i |
| `Formula.ModelRoot` | src/formula.rs:72-74 | the closed form of the root and the root of the constructed model agree |
| `Formula.ValidInModel` | src/formula.rs:216-241 | valid means leaf or inode of the model of the generation |
| `Formula.ModelChildren` | src/formula.rs:202-212 | the closed form gives the left and right child of every inode of the model |
| `Shape.LeftsAreRoots` | src/formula.rs:54-64 | the left children in generation i, from the top, are the perfect-subtree roots of generation i - 1 |
| `Shape.JointsJoinRoots` | src/formula.rs:125-140 | each joint has one perfect subtree on its left and everything to the right of that on its right |
| `Shape.InodesFromRoots` | src/formula.rs:88-104 | the inodes of n are the spine of its last perfect subtree and the joints |
| `Subtree.TreeNodesAre` | src/formula.rs:175-181 | T_n has 2n - 1 nodes, and T_0 none: all of generation n and every perfect node of the generations before |
| `Hops.LeftsNest` | src/lib.rs:1038-1046 | a left child of e_p that lies left of another left child e_q is a left child of e_q too |
| `Hops.NextHopIs` | src/lib.rs:1038-1047 | whichever left child covers the wanted index, there is no other |
| `Hops.SomeLeftCovers` | src/lib.rs:622-635 | some left child always covers a smaller index: the inconsistency is not reported |
| `Hops.LeftsCarryOver` | src/cache.rs:197-212 | what e_n points to is e_{n-1} or something e_{n-1} points to |
| `Hops.ReachCarriesOver` | src/cache.rs:121-126 | apart from e_n, what e_n reaches in some hops e_{n-1} reaches in as many |
| `Hops.HopsTriangle` | src/formula.rs:278-281 | hop counts obey the triangle inequality, so following covering children is never beaten |
| `Hops.ReachIsHops` | src/cache.rs:149-170 | the entries loaded for a level are exactly those at most that many hops away |
| `Distance.PerfectHops` | src/formula.rs:281-285 | inside a perfect subtree there is one hop for every 0 among the digits of the offset |
| `Distance.DistanceIsHops` | src/formula.rs:281-285 | the closed form counts the hops from e_n to e_k for all u64 k and n, and answers nothing outside 1..n |
| `Distance.HopsAtMostHeight` | src/formula.rs:278-281 | no entry of generation n is further away than the height of the tree |
| `Distance.LowerRanges` | src/formula.rs:309-326 | ranges that tile 1..n; range d starts at the smallest index at distance d and holds nothing nearer |
| `Distance.UpperRanges` | src/formula.rs:328-357 | ranges that tile 1..n; range d ends at the largest index at distance d and holds nothing further |
| `Distance.LargestIs` | src/formula.rs:328-353 | the fold over the roots finds the largest index at each distance |
| `Distance.SmallestIs` | src/formula.rs:309-326 | the smallest index at a distance is a power of two |
| `Distance.EntryAccessDistanceLimits` | src/formula.rs:302-359 | both lists of limits for every n, empty for 0 |
| `Merkle.NodeHashSplit` | src/lib.rs:243-249 | the hash of a node combines the hashes of its two children under its own height |
| `Merkle.MerkleCut` | src/lib.rs:205-249 | the Merkle hash written out: height 0 and the payload for a leaf, the height and then the left before the right hash for more |
| `Merkle.NodeHashPrefix` | src/lib.rs:521-569 | the hash of a node depends on nothing appended after it |
| `Merkle.MerkleBinds` | src/lib.rs:205-249 | without collisions the root hash determines the payload sequence, its length included |
| `Entries.EntryPrefix` | src/lib.rs:515-569 | an entry never changes when more is appended |
| `Entries.Entry.FindInRange` | src/lib.rs:357-359 | the first inode of a height is found, if there is one |
| `Serialize.EntryRoundTrip` | src/serialize.rs:5-76 | what is written is read back as the same entry from exactly its bytes, wherever they stand, though right children and node indices are not stored |
| `Serialize.SurvivesIfStorable` | src/serialize.rs:29-76 | of everything that can be written, exactly the entries whose right children are the nodes before them, and whose numbers fit, are read back unchanged |
| `Serialize.ReadIsStorable` | src/serialize.rs:5-42 | nothing else is ever read, from any bytes |
| `Serialize.WrongRightIsLost` | src/serialize.rs:19-24 | an entry with an inode whose right child is not the node before it is not read back as it was |
| `Serialize.LeDigit` | src/serialize.rs:48-71 | byte t of a number stands for its digit of weight 256^t |
| `Serialize.Weights` | src/serialize.rs:48-71 | the weights 256^0 to 256^8 in numbers |
| `Serialize.LeOfFromLe` | src/serialize.rs:9-16 | any bytes are the little-endian form of the number read from them |
| `Layout.INodeBytes` | src/serialize.rs:50-58 | every field of a stored inode at its byte: height less one, position, index and height of the left child, hash |
| `Layout.EntryBytes` | src/serialize.rs:63-76 | every field of a stored entry at its byte: index, number of inodes, length of the payload, payload, hash of the leaf |
| `Layout.EntryINodeAt` | src/serialize.rs:47-59 | inode k stands 9 + 50k bytes into the entry |
| `Layout.DelimiterBytes` | src/checksum.rs:32-42 | the length of the entry, and the checksum over the entry and those four bytes |
| `Layout.EntryIs` | src/lib.rs:526-561 | what append stores: leaf, inodes and children with their indices, heights, positions and hashes |
| `Layout.LogLayout` | src/storage.rs:194-199 | the four header bytes, and then the entries with their delimiters, one after the other; each takes 57 bytes, 50 for every inode, and its payload |
| `Layout.EmptyLogBytes` | src/storage.rs:213-217 | the log of no payload is the four header bytes |
| `Layout.EntryRead` | src/serialize.rs:5-42 | an entry read anywhere in any bytes: it fails only for want of bytes; otherwise every field is what stands in its place, with 6 bits of height and 31 of length |
| `Layout.INodesRead` | src/serialize.rs:11-25 | inodes read one after the other, each with the height of the one before as that of its right child |
| `Layout.DataRead` | src/storage.rs:291-296 | an entry is accepted exactly if its delimiter has its length and the checksum of both; otherwise which error |
| `Journal.EntryIsStorable` | src/lib.rs:521-562 | every entry append can build survives being stored, height 64 included |
| `Checksum.ChecksumWrite.Write` | src/checksum.rs:45-51 | bytes written are added to what was hashed and counted; where the device refuses them, nothing is |
| `Checksum.ChecksumWrite.WriteDelimiter` | src/checksum.rs:32-42 | the delimiter is the length of the entry, then the checksum over the entry and that length |
| `Checksum.WriteINodes` | src/serialize.rs:44-61 | the loop writes the encoding of the inodes and returns its length, or the error of the device |
| `Checksum.WriteEntry` | src/serialize.rs:63-76 | writes the encoding of the entry and returns its length, or the error of the device |
| `Checksum.ChecksumRead.ReadExact` | src/checksum.rs:101-107 | bytes read are added to what was hashed and counted |
| `Checksum.ChecksumRead.CheckDelimiter` | src/checksum.rs:73-98 | the recorded length is compared first, then the checksum, with what was read |
| `Checksum.ReadINodesFrom` | src/serialize.rs:5-27 | the loop carries the height of the right child from inode to inode |
| `Checksum.ReadEntryFrom` | src/serialize.rs:29-42 | reads what the encoding stands for, or fails where it does |
| `Device.MemoryDevice.Read` | src/storage/memory.rs:157-167 | up to n bytes from the cursor, fewer only at the end |
| `Device.MemoryDevice.WriteAll` | src/storage/memory.rs:169-186 | overwrites at the cursor, filling a gap with zeros, and moves it; a read-only device refuses |
| `Device.OverwriteAt` | src/storage/memory.rs:174-179 | byte k afterwards: what was written there, what was there before, or the zero of a gap |
| `Device.MemoryDevice.Seek` | src/storage/memory.rs:188-197 | the cursor moves to a position counted from the start, the end or itself; a target before the start wraps around |
| `Device.MemoryDevice.Truncate` | src/storage/memory.rs:134-147 | cuts the buffer and moves the cursor to the cut, if there is anything to cut |
| `Device.MemoryDevice.CloneDevice` | src/storage/memory.rs:149-154 | a clone shares the buffer, is read-only and has its own cursor |
| `Storage.ReadDataFrom` | src/storage.rs:291-296 | reads the entry at the cursor, checks its delimiter, and leaves the cursor behind it |
| `Storage.ReadLogged` | src/storage.rs:77-83 | in anything that starts with a log, entry k is read at its offset |
| `Storage.Scan` | src/storage.rs:85-103 | the loop passes on what stands at the position and after it, up to the count or the end |
| `Errors.FoldAccepted` | src/storage.rs:95-100 | a callback that accepts everything ends in its last state, one that refuses ends the scan |
| `Errors.FoldRefused` | src/storage.rs:95-100 | a scan has no result exactly if the callback accepts some items in order and refuses the next |
| `Storage.ScanLogged` | src/storage.rs:85-103 | from the offset of entry k, a scan yields entries k, k + 1, ... in order |
| `Storage.ScanRefused` | src/storage.rs:97 | a scan of a log is an error of the callback exactly if it refuses one of the entries |
| `Storage.Boot` | src/storage.rs:208-280 | checks or writes the header and finds the first and the last entry, with every error case |
| `Storage.BootLogged` | src/storage.rs:232-264 | booting a log finds its first entry, its last entry and its end |
| `Layout.BootRefuses` | src/storage.rs:212-229 | what is no log: fewer than four bytes, another identifier, or a version after 1 |
| `Layout.BootFinds` | src/storage.rs:232-264 | what is found behind the header of any bytes: the entry at 4, and the entry the last twelve bytes lead back to, which has to end where they end |
| `Storage.BackOffset` | src/storage.rs:242-251 | the length in the last delimiter leads back to where the last entry starts |
| `Storage.BlockStorage.Last` | src/storage.rs:164-168 | the last entry and the next position, after a boot |
| `Storage.BlockStorage.Put` | src/storage.rs:170-180 | writes the frame of the entry at any position and returns the position behind it |
| `Storage.BlockStorage.Truncate` | src/storage.rs:182-189 | cuts the log at a position |
| `Journal.LogIsValid` | src/storage.rs:284-289 | every entry of a Slate's log records its own offset, which is the sum of the frame lengths before it |
| `Journal.LogOfPrefix` | src/lib.rs:521-569 | the log of the first n payloads is how the log of all of them starts |
| `Caching.ReadEntryChecked` | src/lib.rs:1058-1075 | reads once from the storage and checks the index |
| `Caching.CheckedOutcome` | src/lib.rs:1066-1074 | every read error is passed on, and an entry of another index is an inconsistency |
| `Caching.CheckedEntry` | src/lib.rs:1058-1075 | at a recorded address of a Slate the entry is found: the check of its index does not fail |
| `Caching.LoadWithLevel` | src/cache.rs:149-170 | from any bytes, the recursion over the addresses gives what it should, or its first error |
| `Caching.LoadFirstError` | src/cache.rs:158-159 | the first address that cannot be read decides the error |
| `Caching.LoadKeeps` | src/cache.rs:158-168 | where loading succeeds there is an entry for every address, and none is lost |
| `Caching.LevelLoaded` | src/cache.rs:149-170 | on the log of a Slate it adds exactly the entries within level - 1 hops of the addresses |
| `Caching.RootAddresses` | src/cache.rs:35-49 | from any entry, the left children down to the first perfect inode, and that inode or else the leaf |
| `Caching.RootsFound` | src/cache.rs:35-49 | in an entry of a Slate these are the addresses of all its perfect-subtree roots |
| `Caching.LoadRoots` | src/cache.rs:72-82 | the metadata at the addresses, or a panic when one is missing |
| `Caching.MetasOutcome` | src/cache.rs:72-82 | there is a result exactly if every root is among the entries, and a panic if not |
| `Caching.MetasFound` | src/cache.rs:72-82 | on the log of a Slate every root is found in the entries read: neither the panic nor the unwrap is reached |
| `Caching.Load` | src/cache.rs:28-85 | the cache loaded from any storage and entry, with every error and panic |
| `Caching.LoadOutcome` | src/cache.rs:28-85 | the entries within the level, one hop at least, then the roots among them; of the entries as many are kept as the level says; errors in that order |
| `Caching.LoadIs` | src/cache.rs:28-85 | loaded from the log of a Slate it is the cache of the payloads, at every level |
| `Caching.RootBefore` | src/cache.rs:95-113 | every root of the new generation but the last is in the old map, so neither the entry lookup nor the panic is reached |
| `Caching.CarriedEntries` | src/cache.rs:197-212 | everything the new cache needs besides the new entry is in the old one: the unwrap cannot fail |
| `Caching.MigrateCache` | src/cache.rs:197-212 | copies exactly the entries within the distance |
| `Caching.MigrateRoots` | src/cache.rs:95-119 | the map of perfect-subtree roots of the new generation |
| `Caching.Migrate` | src/cache.rs:88-129 | one step from the cache of the first n - 1 payloads gives the cache of n payloads, the same that Load gives |
| `SlateModel.LeftMeta` | src/cache.rs:187-195 | the root looked up for each inode is in the map, with the height asked for |
| `SlateModel.Slate.Root` | src/lib.rs:493-495 | the root of all payloads, or none |
| `SlateModel.Slate.BuildINodes` | src/lib.rs:533-554 | the loop builds the inodes of the entry: every hash is the recursive hash of its range, and the asserted orders hold |
| `SlateModel.Slate.Append` | src/lib.rs:521-569 | returns the Merkle hash, height and position of the root of everything appended; a failed append changes nothing |
| `SlateModel.LogGrows` | src/lib.rs:562 | writing the next frame at the end of a log gives the log of one payload more |
| `SlateModel.Slate.TakeSnapshot` | src/lib.rs:588-590 | a snapshot holds the cache of the current payloads |
| `SlateModel.Slate.LoadEntry` | src/lib.rs:608-639 | finds the entry of any revision, an error for all others |
| `SlateModel.Slate.SnapshotAt` | src/lib.rs:593-597 | the cache of an earlier revision is the cache of its payloads alone |
| `SlateModel.Slate.Truncate` | src/lib.rs:574-585 | leaves the state of the first i - 1 payloads, or changes nothing if there is no entry i |
| `SlateModel.LogCut` | src/lib.rs:576 | cutting at the position of an entry leaves the log of the payloads before it |
| `SlateModel.LoadMetadata` | src/lib.rs:599-606 | boots any device and loads its cache, or reports why not |
| `SlateModel.MetadataOutcome` | src/lib.rs:599-606 | the error of booting, an empty cache, or what loading comes to |
| `SlateModel.MetadataOfLog` | src/lib.rs:599-606 | booting a log gives the cache of its payloads and the next position |
| `SlateModel.Open` | src/lib.rs:487-490 | opens any device or reports why not; opened on a log, a Slate holds its payloads |
| `SlateModel.StartQuery` | src/lib.rs:431-435 | a query reads the payloads of its snapshot |
| `SlateModel.RootOfEntry` | src/lib.rs:353-355 | the root recorded in the last entry is that of the whole tree |
| `Querying.Query.Fetch` | src/lib.rs:1040-1044 | a cached entry is not read from the storage, any other is read once |
| `Querying.Query.ReadEntryFrom` | src/lib.rs:1031-1049 | every hop goes to a smaller index, and reads the storage exactly if it leads beyond the level of the cache |
| `Querying.Query.ReadEntry` | src/lib.rs:1030-1056 | finds every entry of the revision, and reads max(0, entry_access_distance - level) entries through its cursor; nothing outside the revision, and no read for it |
| `Querying.LeftOnSpine` | src/lib.rs:935-951 | the node a left address names is in the entry it leads to: no inconsistency is reported |
| `Querying.Query.WalkFrom` | src/lib.rs:902-955 | a walk over stored entries is the walk over the tree, from any node and for any callback |
| `Querying.Query.WalkDown` | src/lib.rs:889-900 | the walk from the root, for any callback |
| `Walks.WalkVisitsAll` | src/lib.rs:889-955 | going both ways everywhere shows each of the 2n - 1 nodes once, with the revision, its index, height and hash and the payload of a leaf, by falling index and falling height |
| `Walks.WalkLeft` | src/lib.rs:922-952 | always left: one node of every height, all with the same first leaf, down to that leaf |
| `Walks.WalkRight` | src/lib.rs:922-924 | always right: the nodes of the generation by falling height, down to its leaf |
| `Walks.WalkStops` | src/lib.rs:917-920 | told to stop, it shows nothing more |
| `Walks.WalkGets` | src/lib.rs:964-981 | the directions get gives lead to the leaf and its value |
| `Walks.WalkGetsAlong` | src/lib.rs:964-980 | the walk of get sees only the path: at most one node of every height |
| `Walks.WalkSamples` | src/lib.rs:985-998 | the walk of get_sample collects exactly the hashes of the siblings of the path, and the value |
| `Walks.WalkSamplesAlong` | src/lib.rs:988-998 | the walk of get_sample sees the path and the siblings beside it, and nothing below those |
| `Querying.Query.Get` | src/lib.rs:959-982 | the payload of every index of the revision, nothing outside |
| `Querying.Query.GetSample` | src/lib.rs:985-1004 | the sample of every index of the revision, none outside |
| `Querying.Query.ScanRange` | src/lib.rs:1007-1027 | the entries between two bounds in any order, cut to the revision, and their number |
| `Querying.BoundsAre` | src/lib.rs:1012-1017 | an index is scanned exactly if the revision has it and it lies between the bounds, whichever is the lower |
| `Sampling.BranchCountIs` | src/formula.rs:261-273 | the closed form counts the siblings of the path |
| `Sampling.SampleSize` | src/formula.rs:260-276 | a sample has as many witnesses as stratum_sample_size says, with the hashes of exactly the siblings of the path |
| `Sampling.SampleSizeOutside` | src/formula.rs:274-275 | 0 for a leaf the tree does not have |
| `Sampling.SampleTiles` | src/lib.rs:985-1004 | leaf and witnesses of a sample divide 1..n among them |
| `Sampling.SampleRootHash` | src/lib.rs:719-751 | the root hash computed from a sample is that of the tree; no witness is missing |
| `Sampling.RootHashOutcome` | src/lib.rs:717-751 | for any sample: an error exactly if its leaf is not in its revision, a panic exactly if a witness is missing, a root hash otherwise |
| `Sampling.DifferingKeys` | src/lib.rs:824-833 | the differing witnesses, each once, whatever order the map is visited in; a key missing on one side is the panic |
| `Sampling.Compare` | src/lib.rs:806-840 | every outcome of a comparison, for any two samples; every node is reported as often as it differs, by falling index and falling height |
| `Sampling.ComparedSamples` | src/lib.rs:819-840 | samples of two trees never fail to compare; Identical means equal root hashes; otherwise at least one node is reported, and exactly those of the path that differ |
| `Search.ReportsAreTrue` | src/lib.rs:753-755 | every node reported covers a payload that differs, whatever the hash function |
| `Search.HashesTellApart` | src/lib.rs:753-757 | without collisions, the hashes of a node differ exactly when a payload below it does |
| `Search.IdenticalMeansEqual` | src/lib.rs:819-822 | without collisions, Identical is answered exactly for equal payload sequences |
| `Search.SampleBinds` | src/lib.rs:753-757 | without collisions, equal samples of one leaf force equal payload sequences |
| `Search.PathBinds` | src/lib.rs:724-751 | without collisions, a path that leads to the hash of a node has the payload of the tree at its leaf and the hashes of the tree beside it |
| `Search.SampleIsAuthentic` | src/lib.rs:704-722 | without collisions, any sample that computes the root hash carries the payload the tree has at its leaf, wherever the sample comes from |
| `Search.FirstReported` | src/lib.rs:781-801 | the first node reported covers the last differing leaf |
| `Search.ReportsFall` | src/lib.rs:757-805 | sampling the leaf of a reported node leads to a strictly lower node |
| `Search.FindDifference` | src/lib.rs:757-805 | from any leaf, the interaction ends at the last differing leaf after at most max(1, height) rounds |
| `Folding.FoldValues` | src/lib.rs:141-164 | the in-place fold of consecutive values, level by level, is the Merkle root over them; its assertions hold |
| `Folding.LevelUp` | src/lib.rs:147-163 | pairing up one level, an odd node carried over, is the next level |
| `Folding.Root` | src/lib.rs:141-172 | the fold of the values, then of the branches from the last to the first |
| `Folding.FoldFromTop` | src/lib.rs:165-171 | the branch listed first is joined last |
| `Folding.JoinedSides` | src/lib.rs:168-169 | the one with the lower index is the left child; index, height and hash of what they make |
| `Folding.FoldSiblings` | src/lib.rs:165-171 | the siblings of a path, listed from the root, fold any node up to the top, always a left with a right child |
| `Folding.RootOfValues` | src/lib.rs:140-172 | the values below any node with the siblings of its path give the root of T_n, with index, height and hash |
| `Folding.AnswerBinds` | src/lib.rs:119-121 | without collisions, values and branches that fold into the known root hash are the true ones |
| `Runs.Run` | src/lib.rs:521-585 | after any run of appends and truncations the Slate is in the state of the payloads that remain, and every operation has answered accordingly |
| `Runs.TruncateForgets` | src/lib.rs:571-585 | appending, truncating at i and going on leads to the payloads, and to the answers, of appending only what comes before i and going on |
| `Runs.WithAndWithout` | src/lib.rs:571-585 | two Slates, one that appends and truncates and one that never appended: equal answers from there on, equal cache, position and log bytes |
| `Runs.StateIsPayloads` | src/lib.rs:438-444 | equal payloads mean equal cache, position and log bytes, whatever happened before |
| `Runs.Reopen` | src/lib.rs:487-490 | opening the device at any time gives an equal Slate |
| `Runs.AppendAll` | src/lib.rs:521-569 | the root each append of a run returns is the Merkle root of the payloads up to it |
| `Runs.RememberedRoot` | src/lib.rs:592-597 | the snapshot of revision r has exactly the root that append r returned |
| `Runs.QueryAt` | src/lib.rs:593-597 | a query on an earlier revision holds the payloads of that revision |
| `Runs.QueryStays` | src/lib.rs:412-436 | a query stays valid whatever is appended after its snapshot |
| `Runs.Interleave` | src/lib.rs:957-1027 | with appends interleaved at will, every read of a snapshot answers from its own payloads |
| `KeyValues.MemKvs.Last` | src/storage/memory.rs:42-46 | the last item and the next position |
| `KeyValues.MemKvs.Put` | src/storage/memory.rs:48-52 | stores at any position and returns the number of cells plus 1; in a dense storage that is one item more, or one replaced |
| `KeyValues.MemKvs.Truncate` | src/storage/memory.rs:58-65 | the loop removes everything from the position on; true exactly if there was something |
| `KeyValues.MemKvs.Read` | src/storage/memory.rs:69-80 | the item at a position, or that there is none |
| `KeyValues.MemKvs.Scan` | src/storage/memory.rs:83-99 | the items from a position on, up to the count or the end |
| `RocksDb.XorShiftUndone` | src/storage/rocksdb.rs:194-199 | every xor-shift of the scramble has an inverse |
| `RocksDb.MultiplyBack` | src/storage/rocksdb.rs:194-199 | both wrapping multiplications have an inverse |
| `RocksDb.ScrambleIsBijective` | src/storage/rocksdb.rs:192-199 | the scramble is one-to-one and onto on all 64-bit words |
| `RocksDb.ScrambleIs` | src/storage/rocksdb.rs:194-199 | digit by digit, the three shifts and the two wrapping products with their constants |
| `RocksDb.BigEndianDigit` | src/storage/rocksdb.rs:188 | byte k of a position stands for its digit of weight 256^(7 - k) |
| `RocksDb.KeyBytes` | src/storage/rocksdb.rs:184-190 | the key is the prefix and then the position, or what it is scrambled to, highest byte first |
| `RocksDb.KeysApart` | src/storage/rocksdb.rs:184-190 | no two positions share a key, the metadata key of position 0 included |
| `RocksDb.PlacesApart` | src/storage/rocksdb.rs:184-190 | storages with different prefixes share no key |
| `RocksDb.OthersUnaffected` | src/storage/rocksdb.rs:14-26 | what one storage does leaves every other storage on the database as it was |
| `RocksDb.RocksDbStorage.Fresh` | src/storage/rocksdb.rs:21-26 | where the database has no cells of the place yet, the storage is empty |
| `RocksDb.RocksDbStorage.SetMetadata` | src/storage/rocksdb.rs:43-56 | records the next position over whatever was there, and removes the record when the storage becomes empty |
| `RocksDb.EntryIsRead` | src/storage/rocksdb.rs:151-159 | every stored entry is decoded from its cell as it was put |
| `RocksDb.RocksDbStorage.Last` | src/storage/rocksdb.rs:75-89 | the last entry and the next position; the entry is never missing |
| `RocksDb.RocksDbStorage.Put` | src/storage/rocksdb.rs:91-110 | at any position changes the cells of the entry and of the metadata and no others; at the next position that is one entry more |
| `RocksDb.RocksDbStorage.Truncate` | src/storage/rocksdb.rs:112-134 | the loop deletes exactly the entries from the position on |
| `RocksDb.RocksDbStorage.Read` | src/storage/rocksdb.rs:151-159 | the entry at a position, or that there is none |
| `RocksDb.RocksDbStorage.Scan` | src/storage/rocksdb.rs:161-181 | the entries from a position on, up to the count or the end |

## Left out

- Files, `BufReader`/`BufWriter`, locks and threads: the device is a byte sequence with a cursor, and everything happens in one thread. Buffered writing is writing; a read-only device is noticed at the first byte instead of at the flush.
- The hash functions and HighwayHash: parameters of the model. Nothing is proved about corruption that a checksum would detect.
- The size of a hash is fixed at 32 bytes, the default algorithm's; the other algorithms have other sizes and the same structure.
- `Slate` over storages other than `BlockStorage` on memory: the two key-value storages are proved to keep a sequence, but `Slate` itself is modelled on the block storage only.
- RocksDB itself, and failures of the database or the file system.
- Truncating while queries are running, which the program declares unsupported.
- `src/inspect.rs` (which recomputes inode hashes with the height of the left child, where `append` uses that of the node), the command line, the benchmarks and all text output, including the dump printed when a delimiter does not match.
- `Model::inode`: it has no caller, and does not find every inode.
- `BlockStorage::first`, `MemKVS::first` and `RocksDBStorage::first`: unused; the first entry is part of what `Storage.Boot` returns. `MemKVS::first` looks up the last key, unlike its trait's comment at src/storage.rs:32-35.
- `Snapshot::root` panics on an empty Slate; the model has only the root of the cache, which is an option.
- RocksDb.RocksDbStorage.Put: stated for positions below 2^64 - 1, where the addition of 1 does not overflow, and above 0, as the program asserts.
- RocksDb.RocksDbStorage.Scan: stated for positions from 1 on; position 0 is the cell of the metadata.
- Storage.Boot: the recorded offset plus 4 wraps around at 2^32, as in a release build; a debug build would panic there on damaged bytes.
- Slate and Query on damaged bytes: opening a device, loading a cache and reading are stated for all bytes, but the operations of a Slate or a query are stated for devices that hold the log of some payloads.
- A sample of revision 0 is a panic, as in a debug build; a release build computes with a wrapped index.
- A map or vector that the program fills through a mutable reference while it recurses or loops (the caches in `src/cache.rs`, `hashes` in `ValuesWithBranches::root`) is a value that is passed on and returned, or a local variable; sharing of it is not modelled, and there is none.
- The estimate of the cache size at src/lib.rs:485.
