# Verification of the distributed storage system

A model of the chunk store, the peer-to-peer placement, the put/get protocol, its wire and text formats and the
tracker, with proofs in Dafny 4.11. `dafny verify dfyconfig.toml` checks all of it.

## What is modelled

**The chunk store** (`Store`, `Recency`, `StoreRuns`, `TempNames`, `Accounts`, `Lru`, `Inclusion`, `InclusionGap`,
`MetadataDb`, `Restart`, `StorageManager`). The class `StorageManager` has the fields of the original: limit, running
total, access counter and index, and beside them its directory as a map from names to bytes and the text of
`metadata.db`. Every method is proved to take the manager from state to state as a function of `Store` says. Those
functions are then proved to be an implementation of something much simpler, a list of chunks ordered by last use
(`Recency`): the search for the smallest clock value in an index whose iteration order is arbitrary comes out as
dropping the front of the list. Accounting, the limit, agreement of index and directory, inclusion of a small store in
a large one and transparency of restarts are proved over whole runs of operations, most of them through that list.
Where one of these fails, because a write fails, names collide or sizes differ, the exact condition under which it
still holds is proved instead.

**Placement** (`Kademlia`, `Ranking`, `Routing`, `Placements`, `Dht`). Ids of 20 bytes, their XOR distance as a
160-bit number, the table of nodes and its k nearest. Sorting is used through what `std::sort` promises and no more;
that there is only one outcome follows from ids being unique and XOR to a fixed target being injective.

**Text and framing** (`Text`, `Words`, `Manifest`, `MetadataDb`, `Framing`, `Readings`, `Peers`, `PeerRuns`). Stream
extraction and insertion of words and decimal numbers, the manifest and `metadata.db`, and the request and reply lines
with their payloads. A connection hands over its bytes in pieces of any positive size and may close at any byte. What
each text is read as is also said word by word, by position, without the readers (`Readings`), and what a peer serves
after any run of requests (`PeerRuns`).

**Put and get** (`Chunking`, `Upload`, `Room`, `Deduplication`, `Download`, `FileNames`, `OwnHeaders`, `RoundTrip`,
`EncryptedRoundTrip`, `Retrieval`, `EndToEnd`, `Faults`, `Network`, `DssClient`, `Promises`, `DssGet`). What `putFile`
does to a network of peers, and what `getFile` makes of whatever the peers answer, as functions. `putFile` as it runs,
loop by loop, is proved equal to its function over connections to the peers' own services and storage, connections
that are refused, break off at any byte or lose the reply, and peers that cannot write (`Faults`, `Network`,
`DssClient`). `getFile` as it runs is proved equal to its function for any answers to its requests (`DssGet`). What
follows about getting a file back is proved with some peers bad or down, from peers in general (`RoundTrip`,
`EncryptedRoundTrip`), from peers that hold other bytes under the file's ids (`Deduplication`), and from new peers,
with next to nothing assumed, whatever the file is called (`OwnHeaders`, `Retrieval`, `EndToEnd`).

**Interleaved clients** (`Interleaving`, `OneClient`). Any number of plaintext clients as state machines whose steps
are single requests, in every interleaving, with requests that fail in any of the ways above and clients that die; a
client alone is `putFile` under the same failures.

**The tracker** (`Tracker`, `TrackerService`, `TrackerLines`). Its two maps, pruned lazily, against the history of
requests, and whole sessions of request lines against what is answered to them.

SHA-256, AES-GCM and RSA are functions that the statements quantify over (`Upload.Crypto`). What a statement needs of
them is among its hypotheses: digests of 256 bits (`Is256Bit`), opening what was sealed (`Opens`), not opening under
another vector (`Authenticates`), a private key undoing a public one (`KeyPair`), and no collision among the bytes
actually offered (`NoCollisions`).

## Where the code does not do what one would expect

* A `storeChunk` that throws while replacing a chunk has already lowered the running total; a later eviction can then
  take the total below zero, where it wraps to just under 2^64 and the loop throws out everything
  (`Accounts.FailedStoreCanWrap`, `Accounts.WrapEmptiesStore`). `Accounts.NeverWrapsIff` says exactly when a loop
  wraps, `Accounts.StoreNeverWrapsIff` when a store will, and `Accounts.AccountedAfterRunIff` after which runs the
  total is exact.
* A chunk named like another chunk's temporary file loses its file when that other chunk is written, or when its write
  fails at the last moment, and stays in the index unless it has to be evicted at once; `TempNames.TempNameCollision`
  is the exact condition, under any limit. Names made by SHA-256 cannot collide so.
* With no limit, storing does not save the index, and no failing store that lowered the total does, so a restart
  straight afterwards forgets what was done; `Restart.SyncedAfterRunIff` says exactly when, over whole runs, and
  `Restart.RestartAfterStore` what a chunk's file and index entry then are.
* An encrypted file comes back if and only if no two of its chunks are equal
  (`EncryptedRoundTrip.EncryptedRoundTripIff`, `EndToEnd.EncryptedPutThenGet`): chunks are stored under the hash of
  their plaintext, but enciphered differently at each index, and the later ciphertext replaces the earlier.
* Deduplication trusts ids: a target that already has other bytes under an id keeps them (`Upload.DedupHoldsIff`).
  What that does to a whole upload, and to getting the file back, is `Deduplication.DedupEqualsFullUploadIff` and
  `Deduplication.PlainRoundTripIff`.
* A manifest comes back from its text only if its file name is a single word (`Manifest.RoundTripIff`); white space
  around the word is merely lost. A file whose name has several words is uploaded without complaint, and its manifest
  is then read as the one that the name spells by itself (`OwnHeaders.ReadsAsItsName`). Most names spell none, and the
  file cannot be fetched; but some do, and `getFile` then returns with whatever that manifest lists: for a name such
  as "x size 0 chunk_size 1 chunks 0", with nothing (`EndToEnd.SilentLoss`). `EndToEnd.PutThenGet` and
  `EndToEnd.EncryptedPutThenGet` are exact for every name.
* With chunks of different sizes, the chunks of a small store need not be among those of a large one
  (`Lru.MixedRequestsBreakInclusion`). They are as long as no load succeeds in the larger store alone
  (`Inclusion.InclusionWhereAnswersAgree`), and where one does, `InclusionGap.LastingInclusionIff` says exactly after
  which runs they are and stay so whatever is stored next.
* `from_hex` takes more than digits: of "1g" it reads 1, and it allows a blank or a sign in front of a single digit
  (`Kademlia.LenientPairs`, `Kademlia.HexTextIff`).

## Model

| member | source | states |
|---|---|---|
| `StorageManager.StorageManager.constructor` | src/core/storage/storage_manager.cpp:9-28 | A new manager is empty-handed, whatever the directory holds, until it loads its metadata. |
| `StorageManager.StorageManager.PersistMetadata` | src/core/storage/storage_manager.cpp:96-107 | What is written is the counter, the total and the index in memory, in some order of its entries; it reads back as exactly those where names are words, and nothing else changes. |
| `StorageManager.StorageManager.Touch` | src/core/storage/storage_manager.cpp:109-113 | An indexed chunk gets a clock value of its own, the newest; nothing happens for any other name. |
| `StorageManager.StorageManager.FindVictim` | src/core/storage/storage_manager.cpp:119-125 | The search, in any iteration order, ends at a chunk no other chunk is older than. |
| `StorageManager.StorageManager.EvictOldest` | src/core/storage/storage_manager.cpp:118-135 | One round of the eviction loop takes out exactly the oldest chunk, its file and its size, by a subtraction that may wrap. |
| `StorageManager.StorageManager.EnforceLimit` | src/core/storage/storage_manager.cpp:115-138 | The whole new state: evictions, oldest first, until the total fits or nothing is left, then a save of the index as it then is; nothing at all under limit 0. |
| `StorageManager.StorageManager.SetMaxBytes` | src/core/storage/storage_manager.cpp:30-33 | A new limit takes effect at once, as the step function says, and what is left is saved, unless the limit is 0; ages stay distinct. |
| `StorageManager.StorageManager.WriteFile` | src/core/storage/storage_manager.cpp:158-176 | The three ways the temporary file and its renaming can go, and what each leaves in the directory. |
| `StorageManager.StorageManager.WriteChunk` | src/core/storage/storage_manager.cpp:146-182 | The books after a write, and after a write that fails half-way, when the total has already been lowered. |
| `StorageManager.StorageManager.StoreChunk` | src/core/storage/storage_manager.cpp:140-185 | The whole new state and whether the call throws, for every name and every outcome of the write, and the text of metadata.db: the new index, if the call returns under a limit, and otherwise what it was. Ages stay distinct even when it throws. |
| `StorageManager.StorageManager.LoadChunk` | src/core/storage/storage_manager.cpp:187-208 | The bytes of the file, or an exception, the chunk becoming the most recent, and the index saved with that, unless the call throws. |
| `StorageManager.StorageManager.DeleteChunk` | src/core/storage/storage_manager.cpp:210-225 | The whole new state after a deletion, of an indexed chunk or not, and the index saved. |
| `StorageManager.StorageManager.HasChunk` | src/core/storage/storage_manager.cpp:236-238 | Whether the chunk is indexed. |
| `StorageManager.StorageManager.ListChunks` | src/core/storage/storage_manager.cpp:227-234 | Every indexed chunk exactly once, with its size and age. |
| `StorageManager.StorageManager.RebuildMetadataFromDisk` | src/core/storage/storage_manager.cpp:69-94 | A scan of any directory, in any order, gives an index of all its files with sizes, ages in that order, and their total, and saves it. |
| `StorageManager.StorageManager.LoadMetadata` | src/core/storage/storage_manager.cpp:39-67 | A well-formed metadata.db is restored exactly, later lines winning; an absent or malformed one leads to a scan of whatever the directory holds. The manager can be used afterwards if the ages read were distinct. |
| `StorageManager.ScanIsConsistent` | src/core/storage/storage_manager.cpp:69-94 | After a scan of a directory of chunk files, in any order, index, directory, total and ages agree. |
| `StorageManager.ScannedIsAged` | src/core/storage/storage_manager.cpp:69-94 | After a scan of any directory, ages are pairwise distinct and not ahead of the counter. |
| `Store.OldestExists` | src/core/storage/storage_manager.cpp:119-125 | A non-empty index has a chunk no other is older than. |
| `Store.StepKeepsWellKept` | src/core/storage/storage_manager.cpp:30-225 | Every operation, even one that throws, keeps ages pairwise distinct and not ahead of the counter. |
| `Recency.EvictFront` | src/core/storage/storage_manager.cpp:119-134 | The chunk with the smallest clock value is the front of the recency list, and taking its size off the total does not wrap. |
| `Recency.EvictLoopFits` | src/core/storage/storage_manager.cpp:115-138 | The eviction loop is dropping from the front of the list until the rest fits. |
| `Recency.StepRefines` | src/core/storage/storage_manager.cpp:30-225 | Every returning operation does to index, clock, total and files what moving one chunk to the end of a list, removing it or trimming the front does to the list, and answers alike. |
| `StoreRuns.RunRefines` | src/core/storage/storage_manager.cpp:30-225 | Every run of the manager is a run of the list, state for state and answer for answer. |
| `StoreRuns.RunsStayConsistent` | src/core/storage/storage_manager.cpp:30-225 | From a consistent state, index, directory, total and ages agree after every run. |
| `StoreRuns.ExactAccounting` | src/core/storage/storage_manager.cpp:115-225 | After every run the total is the sum of the indexed sizes, ages are distinct and not ahead of the counter, and a store or a new limit leaves the total within a non-zero limit. |
| `StoreRuns.LoadGivesLastStore` | src/core/storage/storage_manager.cpp:140-238 | In every state reachable from any consistent one, a chunk is indexed if and only if loading it succeeds, and loading gives the bytes of its last store, or those held at the start, as long as the recorded size. |
| `StoreRuns.NewStoreGivesLastStore` | src/core/storage/storage_manager.cpp:140-238 | A manager that starts empty serves nothing but what was last stored with it. |
| `StoreRuns.FitIsLongestSuffix` | src/core/storage/storage_manager.cpp:115-138 | What the limit keeps is the longest most recently used part that fits, with its bytes. |
| `StoreRuns.JustStoredSurvives` | src/core/storage/storage_manager.cpp:178-184 | A chunk just stored is still there if and only if there is no limit or it fits by itself. |
| `StoreRuns.StoreWithRoom` | src/core/storage/storage_manager.cpp:140-185 | Where the new total fits, a store adds or replaces that one chunk and evicts nothing. |
| `StoreRuns.LoadKeeps` | src/core/storage/storage_manager.cpp:187-208 | A load changes no file, no indexed name and no total. |
| `StoreRuns.DeletedIsGone` | src/core/storage/storage_manager.cpp:210-225 | In any state, what is deleted can no longer be loaded and is not indexed, whether it was indexed or only lay in the directory; every other chunk is as before. |
| `StoreRuns.StepKeepsAgreement` | src/core/storage/storage_manager.cpp:30-225 | Index and directory agree after every operation on chunk names, failing writes included. |
| `TempNames.ConsistentIff` | src/core/storage/storage_manager.cpp:30-225 | The consistency that the results over runs assume can be read off the fields: index and directory agree, ages are distinct, the total is the sum. |
| `TempNames.CollidingStaysIff` | src/core/storage/storage_manager.cpp:115-185 | After a store another chunk is still indexed if and only if there is no limit or the new chunk fits together with everything used no earlier than that one. |
| `TempNames.TempNameCollision` | src/core/storage/storage_manager.cpp:140-185 | Under any limit and for every outcome of the write, index and directory still agree after a store if and only if nothing was indexed under the name of its temporary file, or that file was not opened, or the write was complete and what was so indexed is evicted anyway, which is told from the sizes. |
| `TempNames.TempNamesAtWork` | src/core/storage/storage_manager.cpp:158-184 | Three pairs of stores under the limit 3: two after which an indexed chunk has lost its file, by a complete write and by a failing one, and one where it is evicted in time. |
| `Accounts.NeverWrapsIff` | src/core/storage/storage_manager.cpp:115-138 | For every total and every index with distinct ages: no round of the eviction loop takes more off the total than there is, if and only if for every chunk the loop gets as far as, the total is no less than the sizes of that chunk and all older ones. |
| `Accounts.StoreNeverWrapsIff` | src/core/storage/storage_manager.cpp:150-184 | Whether a store will wrap the total, told beforehand from the index, the total and the new size. |
| `Accounts.EvictionNeverWraps` | src/core/storage/storage_manager.cpp:115-138 | From a consistent state no round of the eviction loop underflows, and each leaves a consistent state. |
| `Accounts.WrapEmptiesStore` | src/core/storage/storage_manager.cpp:115-138 | Where sizes and limit fit into 64 bits together: a loop that wraps evicts everything and leaves a total of 2^64 less the shortfall; a loop that does not never raises the total. |
| `Accounts.FailedStoreCanWrap` | src/core/storage/storage_manager.cpp:133-164 | A run of stores under one fixed limit, one of them an overwrite that fails, after which an eviction has wrapped the total and emptied the store. |
| `Accounts.FailedStoreAccounting` | src/core/storage/storage_manager.cpp:150-176 | After a store that throws the total is exact if and only if there was nothing, or only an empty chunk, to replace. |
| `Accounts.AccountedAfterRunIff` | src/core/storage/storage_manager.cpp:30-225 | After any run without a wrap, failing writes included, the total is never above the sum of the indexed sizes, and equal to it if and only if no failing write lowered it since the last store or deletion of a chunk beside which all others were empty. |
| `Lru.NestedStep` | src/core/storage/storage_manager.cpp:115-225 | One request to two stores of equal-sized chunks keeps the smaller one's order a subsequence of the larger one's and the surplus within the surplus of capacity. |
| `Lru.Inclusion` | src/core/storage/storage_manager.cpp:115-225 | After any stores, loads and deletions of equal-sized chunks, the chunks of the store with the smaller limit are among those of the other, even when a load succeeds only in the larger. |
| `Lru.StoresOnlyClosedForm` | src/core/storage/storage_manager.cpp:115-185 | After stores alone, with a size fixed per id, a limited store holds the longest recent part that fits of what an unlimited store would hold. |
| `Lru.MixedRequestsBreakInclusion` | src/core/storage/storage_manager.cpp:115-208 | Three stores and a load, of chunks of different sizes, after which the smaller store has a chunk the larger one lacks. |
| `Inclusion.RecentEndStepIff` | src/core/storage/storage_manager.cpp:115-225 | One request of any size, by lists: the smaller store stays the recent end of the larger if and only if the request is not a load that succeeds in the larger alone while the smaller holds anything. |
| `Inclusion.RecentEndRunsIff` | src/core/storage/storage_manager.cpp:115-225 | Over whole runs of stores of any sizes, loads and deletions on two new stores, the smaller is at every moment the recent end of the larger if and only if no load ever succeeds in the larger alone while the smaller holds anything. |
| `Inclusion.InclusionWhereAnswersAgree` | src/core/storage/storage_manager.cpp:115-225 | After stores of any sizes, deletions, and loads none of which succeeds in the larger store alone, the chunks under the smaller limit are among those under the larger, or under none, with the same bytes. |
| `InclusionGap.NestsStep` | src/core/storage/storage_manager.cpp:115-225 | Every request other than a load that succeeds in the larger store alone keeps the smaller nested in the larger with, since the last use of each shared chunk, no more than the difference of the limits between them. |
| `InclusionGap.BeyondTheGap` | src/core/storage/storage_manager.cpp:115-185 | Where that difference is exceeded, a store of the right size evicts a chunk from the larger store and not from the smaller. |
| `InclusionGap.SurvivesStoresIff` | src/core/storage/storage_manager.cpp:115-185 | Of two stores within their limits, one within the other, inclusion survives whatever chunk is stored next if and only if the difference is nowhere exceeded. |
| `InclusionGap.LastingInclusionIff` | src/core/storage/storage_manager.cpp:115-225 | For any run of stores, loads and deletions of chunks of any sizes: at every moment the smaller store is nested in the larger and stays included whatever is stored next, if and only if every load that succeeds only in the larger leaves the difference unexceeded. |
| `MetadataDb.DbRoundTrip` | src/core/storage/storage_manager.cpp:51-66 | Reading back what was written gives the same counter, total and index for every order of the lines. |
| `Readings.DatabaseIsRead` | src/core/storage/storage_manager.cpp:45-66 | Any text in the place of metadata.db is read as its words say: two numbers, without which there is none, and then names with two numbers each, later ones winning, up to the first that is incomplete. |
| `Restart.SyncedAfterRunIff` | src/core/storage/storage_manager.cpp:30-225 | After any run, failing writes included, metadata.db is up to date and a restart changes nothing, if and only if since it was last written no chunk was stored under no limit and no failing write lowered the total. |
| `Restart.RestartsAreUnobservable` | src/core/storage/storage_manager.cpp:39-107 | Under a limit, a run with restarts at any operation boundaries is state for state and reply for reply the run without them. |
| `Restart.RestartAfterStore` | src/core/storage/storage_manager.cpp:39-185 | After a store and a restart: exactly when the chunk is still indexed, and exactly when index and directory still agree. |
| `Kademlia.XorDistance` | src/core/dht/kademlia_id.cpp:62-68 | The loop computes the bytewise XOR. |
| `Kademlia.LessIsNumericOrder` | src/core/dht/kademlia_id.cpp:70-74 | The lexicographic order of equally long byte strings is the order of the big-endian numbers they stand for. |
| `Kademlia.DistanceIsAMetric` | src/core/dht/kademlia_id.cpp:62-68 | As numbers, distances are zero only between equals, symmetric, and satisfy the triangle inequality (section 2.1 of the Kademlia paper). |
| `Kademlia.Unidirectional` | src/core/dht/kademlia_id.cpp:62-68 | At any distance from a target lies exactly one id. |
| `Kademlia.ToHexLoop` | src/core/crypto/hybrid.cpp:260-269 | The loop over bytes writes the two digits of each, in order. |
| `Kademlia.FromHexLoop` | src/core/crypto/hybrid.cpp:271-282 | The loop over pairs gives for each pair the byte std::stoi reads, and ends in an exception at the first in which it finds no number; an odd length gives nothing. |
| `Kademlia.DecodeLoop` | src/core/dht/kademlia_id.cpp:12-22 | The same loop for any two-character code. |
| `Kademlia.HexRoundTrip` | src/core/crypto/hybrid.cpp:260-282 | Any bytes come back from their hexadecimal text. |
| `Kademlia.HexTextIff` | src/core/crypto/hybrid.cpp:260-282 | A text is what to_hex makes of the bytes from_hex reads from it if and only if it is an even number of lower-case digits. |
| `Kademlia.DigitsAre` | src/core/crypto/hybrid.cpp:271-282 | Hexadecimal digits are read in either case, and no other characters are. |
| `Kademlia.LenientPairs` | src/core/crypto/hybrid.cpp:275-279 | Of a digit and something that is none from_hex reads the digit; a blank or a sign may stand before a digit; otherwise a pair that does not begin with a digit is an exception. |
| `Kademlia.HexIsBaseSixteen` | src/core/crypto/hybrid.cpp:260-269 | The text of some bytes is their big-endian number in base 16, high digit first. |
| `Kademlia.IdTextRoundTrip` | src/core/dht/kademlia_id.cpp:76-88 | An id comes back from its text. |
| `Kademlia.KeyIdIsDigestPrefix` | src/core/dht/kademlia_id.cpp:37-60 | The id of a key is the first 20 bytes of its digest. |
| `Routing.UpsertIs` | src/core/dht/kademlia_routing_table.cpp:9-21 | Adding a node replaces the entry with its id, or adds one: ids stay unique, no other entry changes. |
| `Routing.SortHasOneOutcome` | src/core/dht/kademlia_routing_table.cpp:23-37 | On a table with unique ids every outcome std::sort may have is the same list. |
| `Routing.ClosestAreNearest` | src/core/dht/kademlia_routing_table.cpp:23-37 | closestNodes gives min(k, n) different nodes in strictly increasing distance, each strictly nearer than every node left out, and its result is a prefix of that for any larger k. |
| `Routing.PlacementAfterDepartures` | src/core/dht/kademlia_routing_table.cpp:23-37 | The same of any table of nodes and any target: when nodes leave, those of the k closest that remain are still the front of the result, in the same order. |
| `Routing.PlacementAfterArrival` | src/core/dht/kademlia_routing_table.cpp:23-37 | The same of any table of nodes and any target: when a node joins it is inserted, or not, and at most the last of the k closest is dropped; nothing else moves. |
| `Routing.TableIsWellFormed` | src/core/dht/dht_node.cpp:5-14 | The table built from any peer list has unique ids, holds only configured peers under their own ids, and never this client. |
| `Routing.PlacementIs` | src/core/dht/dht_node.cpp:23-40 | Whatever ids clash, the targets of a key are different configured peers, never more than the replicas asked for, and none only where the table is empty. |
| `Placements.TargetsAreNearest` | src/core/dht/dht_node.cpp:23-40 | Where no two peers have the same id, the targets of a key are exactly as many configured peers as asked for, at least one, or all there are other than the client; in strictly increasing XOR distance of the first 20 bytes of the digest of "ip:port" from those of the digest of the key; and every other peer is strictly farther. |
| `Placements.TargetsAfterDepartures` | src/core/dht/dht_node.cpp:23-40 | When peers leave the configuration, the targets that remain are still the first targets, in the same order. |
| `Placements.TargetsAfterArrival` | src/core/dht/dht_node.cpp:23-40 | When a peer joins it is a target or it is not: if so the others are the earlier targets, in the same order, less the last where that makes one too many, and otherwise nothing changes. |
| `Routing.PlacementIgnoresOrder` | src/core/dht/dht_node.cpp:5-40 | Any list of the same peers, in any order and with repetitions, gives the same placement, provided peers with the same id are the same peer. |
| `Dht.RoutingTable.constructor` | src/core/dht/kademlia_routing_table.cpp:9-21 | A new table is empty. |
| `Dht.RoutingTable.AddNode` | src/core/dht/kademlia_routing_table.cpp:9-21 | The search for the id and the replacement or push_back amount to the list operation above; the table stays well-formed. |
| `Dht.RoutingTable.Sort` | src/core/dht/kademlia_routing_table.cpp:23-37 | Stands for std::sort and meets its contract. |
| `Dht.RoutingTable.ClosestNodes` | src/core/dht/kademlia_routing_table.cpp:23-37 | Sorting a copy and cutting it off gives the k nearest. |
| `Dht.DhtNode.constructor` | src/core/dht/dht_node.cpp:5-14 | Adding the peers one by one gives the table of the peer list. |
| `Dht.DhtNode.FindNode` | src/core/dht/dht_node.cpp:16-21 | Clamping k does not change what the nearest nodes are. |
| `Dht.DhtNode.Store` | src/core/dht/dht_node.cpp:23-40 | The targets of a key, as placed above, for any number of replicas, also non-positive or more than there are peers. |
| `Dht.DhtNode.FindValue` | src/core/dht/dht_node.cpp:42-48 | Reading asks the same peers that writing chose. |
| `Manifest.SerializeManifest` | src/core/manifest/manifest.cpp:9-27 | Appending to the stream line by line writes the manifest's text. |
| `Manifest.ParseIds` | src/core/manifest/manifest.cpp:50-56 | The loop pushes exactly as many words as announced, or fails. |
| `Manifest.ParseManifestText` | src/core/manifest/manifest.cpp:29-71 | Consuming the stream and filling in the fields parses the text, with the same failures. |
| `Manifest.RoundTripIff` | src/core/manifest/manifest.cpp:9-71 | A manifest comes back from its text if and only if its name and ids are non-empty words and its encryption fields are words, or empty when not encrypted. |
| `Manifest.SerializeIsInjective` | src/core/manifest/manifest.cpp:9-27 | Different such manifests have different texts. |
| `Manifest.Normalises` | src/core/manifest/manifest.cpp:9-71 | Any text that parses, laid out as it may be, re-serialises to a text that parses to the same manifest. |
| `Readings.ManifestIsRead` | src/core/manifest/manifest.cpp:29-71 | Any text is read as its words say, by position: four labels with their values and as many ids as announced, or an error; then, only after "encrypted 1", three labels more with their values, or an error, and with anything else in that place no encryption. |
| `Words.SeparatorsAre` | src/core/manifest/manifest.cpp:29-71 | Words are separated by blanks, tabs, line feeds, vertical tabs, form feeds and carriage returns, and by nothing else. |
| `FileNames.PaddedNameIsTrimmed` | src/core/manifest/manifest.cpp:9-71 | A name that is one word with white space around it comes back as that word, and everything else in the manifest as it was. |
| `FileNames.UnreadableNameIsRefused` | src/core/manifest/manifest.cpp:9-71 | The text of a manifest whose name is blank, or has a second word other than "size", does not parse. |
| `OwnHeaders.ReadsAsItsName` | src/core/manifest/manifest.cpp:9-71 | A manifest whose name is not one word is read as the one its name spells by itself; if the name spells none, its text does not parse, or gives itself away by having the word "size" for an id or for the key. |
| `OwnHeaders.EmptyingNameSpells` | src/core/manifest/manifest.cpp:29-71 | The names that spell the manifest of an empty file. |
| `Framing.SendAll` | src/core/net/tcp.cpp:65-74 | However the kernel splits the sends, success means everything was sent, and failure that a proper prefix was. |
| `Framing.RecvLine` | src/core/net/tcp.cpp:108-123 | However the bytes arrive, the line is what stands before the first newline, without carriage returns, or nothing when too long or cut off; the rest is left unread. |
| `Framing.RecvPayload` | src/core/peer/peer_service.cpp:118-128 | However the bytes arrive, the payload is the next size bytes, or all there are if the peer closes first. |
| `Framing.RecvRequest` | src/core/peer/peer_service.cpp:106-203 | What the server takes a request to be depends only on the bytes of the connection, not on how they arrive. |
| `Framing.PutMessageIsUnderstood` | src/core/peer/peer_client.cpp:21-27 | What putChunk and putManifest send, whatever follows, is read as exactly that id and those bytes, if the header is within the line cap, and as no request beyond it. |
| `Framing.CutMessageStoresNothing` | src/core/peer/peer_service.cpp:117-139 | However early the connection breaks off, no truncated data is taken for a request. |
| `Framing.AskIsUnderstood` | src/core/peer/peer_client.cpp:47-48 | GET and HAS requests are read as what they ask for. |
| `Readings.RequestIsRead` | src/core/peer/peer_service.cpp:106-203 | Any bytes at all: what stands before the first newline, carriage returns left out, is read as its words say, a command, an id and a size, with so many of the bytes after it where the command stores something; a line over 8192 bytes, or without an end, is no request. |
| `Framing.RecvData` | src/core/peer/peer_client.cpp:50-77 | However the bytes arrive, the reply is its size's worth of bytes or an exception. |
| `Framing.DataReplyIsUnderstood` | src/core/peer/peer_client.cpp:50-77 | The bytes served are the bytes received. |
| `Framing.CutReplyIsNoData` | src/core/peer/peer_client.cpp:65-77 | A reply cut short at any byte is an exception, never truncated data. |
| `Readings.ReplyIsRead` | src/core/peer/peer_client.cpp:50-77 | Any bytes in answer to a GET: OK and a size stand for so many of the bytes after the line, anything else and anything less for an exception. |
| `Framing.OkAndErrLines` | src/core/peer/peer_client.cpp:93-99 | OK is taken for yes, ERR for no. |
| `Peers.PeerService.Handle` | src/core/peer/peer_service.cpp:106-204 | One connection: the request as its bytes say, the peer's whole new state, and the reply, for all requests, well-formed or not, as the state functions say that the rows below are about. |
| `Peers.PutChunkOverTheWire` | src/core/peer/peer_service.cpp:117-139 | A PUT_CHUNK that arrives whole stores exactly those bytes under that id and is answered OK; cut at any byte it leaves the peer as it was and is not. |
| `Peers.GetChunkOverTheWire` | src/core/peer/peer_client.cpp:40-82 | A GET_CHUNK gives the client exactly the bytes in the peer's store, or an exception, also when the reply is cut. |
| `Peers.OnlyPutsChange` | src/core/peer/peer_service.cpp:117-203 | Only PUT_MANIFEST changes the manifests, only PUT_CHUNK the files and what is indexed, and only these and GET_CHUNK anything in the store. |
| `PeerRuns.ManifestsAreServed` | src/core/peer/peer_service.cpp:155-203 | After any run of requests GET_MANIFEST is answered with the text of the last acknowledged PUT_MANIFEST under that id, or what was there at the start, and HAS_MANIFEST with whether there is any. |
| `PeerRuns.ChunksAreServed` | src/core/peer/peer_service.cpp:117-154 | After any run of requests, failing writes included, whatever GET_CHUNK serves is the last chunk put under that id and acknowledged, or what was there at the start, and HAS_CHUNK says yes exactly if it serves any. |
| `PeerRuns.NamelessIsRefused` | src/core/peer/peer_service.cpp:117-179 | Without an id nothing can be put: the answer is an error and nothing changes. |
| `Chunking.ChunkFile` | src/core/chunk/chunker.cpp:9-38 | Reading until nothing is read splits the file; chunk size 0 is refused. |
| `Chunking.SplitIs` | src/core/chunk/chunker.cpp:23-36 | The chunks concatenate to the file, number ceil(size / chunkSize), are never empty and are all full but the last. |
| `Chunking.DeriveChunkIv` | src/core/crypto/hybrid.cpp:21-34 | The base vector with its last four bytes overwritten by the index modulo 2^32, big-endian. |
| `Chunking.IvCarriesIndex` | src/core/crypto/hybrid.cpp:21-34 | The first eight bytes are the base vector's and the last four, read as a big-endian number, the index modulo 2^32. |
| `Chunking.SameIvIff` | src/core/crypto/hybrid.cpp:21-34 | Two indices give the same vector if and only if they agree modulo 2^32, so never within a file of at most 2^32 chunks (section 8 of NIST SP 800-38D). |
| `Upload.DeliverIs` | src/core/dss/dss_client.cpp:84-115 | A delivery to reachable targets with room reaches exactly its recipients, each of which then has the bytes, and leaves every other peer alone. |
| `Upload.DedupHoldsIff` | src/core/dss/dss_client.cpp:87-108 | After a deduplicated delivery a target holds the right bytes if and only if it did not have the id before or had it with those bytes. |
| `Deduplication.DedupEqualsFullUploadIff` | src/core/dss/dss_client.cpp:72-122 | A whole deduplicated upload, repeated chunks included, leaves every peer with the files that sending every chunk to every target would have left, if and only if no target had other bytes under a chunk's id. |
| `Deduplication.FirstDeliveryWins` | src/core/dss/dss_client.cpp:87-108 | After a deduplicated upload each peer has under an id what it had before, or else the first chunk sent to it under that id. |
| `Deduplication.PlainUploadQualifies` | src/core/dss/dss_client.cpp:72-87 | The two are about every plaintext upload whose different chunks have different hashes. |
| `Deduplication.PlainRoundTripIff` | src/core/dss/dss_client.cpp:33-277 | After a plaintext putFile that returned without evictions, over honest peers that may have held anything, getFile gives the original bytes if and only if for each chunk some peer had the right bytes already, or had nothing under the id and was a target. |
| `Room.RoomSuffices` | src/core/dss/dss_client.cpp:87-115 | Peers with room for everything that may be sent to them evict nothing during an upload. |
| `Upload.DeliverAllIs` | src/core/dss/dss_client.cpp:72-122 | After all deliveries every parcel is on all its targets, and no peer has lost anything. |
| `Upload.RepeatedUploadSendsNothing` | src/core/dss/dss_client.cpp:87-108 | Delivering the same chunks again, deduplicated, touches no store at all. |
| `Network.Cluster.Exchange` | src/core/peer/peer_service.cpp:97-205 | One request over one connection, under any outcome of the write at the peer, changes the one peer, as its service does, and no other. |
| `Network.Cluster.PutChunk` | src/core/peer/peer_client.cpp:14-38 | A chunk sent to a reachable peer is stored there, byte for byte, and acknowledged; otherwise the caller gets an exception, and the peer is left as it was, or with the chunk, or as its own failing write leaves it. |
| `Network.Cluster.PutManifest` | src/core/peer/peer_client.cpp:106-127 | The same for a manifest, which is also refused where its file cannot be opened. |
| `Network.Cluster.HasChunk` | src/core/peer/peer_client.cpp:84-104 | Asking tells whether the peer has the chunk, and changes nothing; an answer that does not arrive counts as no, and only a refused connection throws. |
| `Faults.ReturnedUploadIsRunUpload` | src/core/dss/dss_client.cpp:72-132 | Whatever goes wrong on the way, a putFile that returns nevertheless, and encrypts or has heard every answer it asked for, has left exactly what the upload function says. |
| `Faults.FineUploadIsRunUpload` | src/core/dss/dss_client.cpp:72-132 | Where nothing goes wrong putFile does what the upload function says, unreachable peers included. |
| `DssClient.Client.AskTargets` | src/core/dss/dss_client.cpp:88-99 | The loop of checks collects exactly the targets not known to have the chunk, in order, and throws exactly if no connection to one is made. |
| `DssClient.Client.SendToMissing` | src/core/dss/dss_client.cpp:100-106 | Counting down the needed replicas stops at no missing target too early: every one of them is sent the chunk, up to the first that fails. |
| `DssClient.Client.SendToAll` | src/core/dss/dss_client.cpp:109-115 | The encrypting branch sends to every target, or up to the first that fails. |
| `DssClient.Client.SendParcel` | src/core/dss/dss_client.cpp:84-115 | Both branches deliver as the delivery function says. |
| `DssClient.Client.PrepareChunk` | src/core/dss/dss_client.cpp:73-84 | Id, bytes to send and targets of chunk i. |
| `DssClient.Client.SendChunks` | src/core/dss/dss_client.cpp:72-122 | The loop delivers the chunks in order and lists their ids in the manifest. |
| `DssClient.Client.PrepareManifest` | src/core/dss/dss_client.cpp:124-129 | Id, text and targets of the manifest. |
| `DssClient.Client.SendManifests` | src/core/dss/dss_client.cpp:130-132 | The manifest goes to all its targets, or up to the first that fails. |
| `DssClient.Client.PutFile` | src/core/dss/dss_client.cpp:33-151 | putFile as it runs, over connections to the peers' own services and storage, with any request refused, cut, unanswered or met by a failing write, and with or without a local copy of the manifest: the peers afterwards, and the share id and local text or the exception, as the functions say that the rows below are about. |
| `Promises.KeyDecides` | src/core/dss/dss_client.cpp:50-84 | If and only if a public key is configured: every chunk is sent enciphered under its own vector, nothing is deduplicated, and the manifest says encrypted, by which algorithms, and carries the wrapped key. Otherwise every chunk is sent as it is, deduplicated, and the manifest carries no key. Name, size, chunk size and hashes are in the manifest in either case. |
| `Promises.NearestAreSentTo` | src/core/dss/dss_client.cpp:41-45 | Each chunk goes to the configured number of peers, at least one, or all there are, that are nearest to its hash, and the manifest to those nearest to "manifest:" and its hash. |
| `Promises.ReturnedPutFileLeaves` | src/core/dss/dss_client.cpp:72-132 | After a putFile that returned and evicted nothing, every target of every chunk holds, with a public key configured, the ciphertext of the last chunk with that hash, and without one what it held before, or else the chunk. |
| `Promises.PlainResultLeadsBack` | src/core/dss/dss_client.cpp:33-277 | Without a public key, by the share id that a putFile returned, over whatever failures, and by the local manifest it left, getFile writes exactly the original bytes, with fewer bad peers than targets. |
| `Promises.SealedResultLeadsBack` | src/core/dss/dss_client.cpp:33-277 | With a public key, the owner of the private one gets exactly the original bytes by either, if no two chunks have the same hash. |
| `Promises.ThrowsIff` | src/core/dss/dss_client.cpp:36-147 | putFile throws exactly without peers, with chunks of no size, when an upload does not get through, or when the local manifest cannot be written; in the first two cases nothing has been sent. |
| `Download.CandidatesCoverPeers` | src/core/dss/dss_client.cpp:229-243 | Candidates are the responsible peers, in order, then the other configured peers, each once and all of them. |
| `Download.FetchIsSafe` | src/core/dss/dss_client.cpp:158-277 | Whatever the peers answer, what getFile writes is a concatenation of blocks whose hashes are the first entries of a manifest, all of them if and only if it returns; a manifest from the network has the hash asked for. |
| `Download.ChunkFoundIff` | src/core/dss/dss_client.cpp:227-268 | A chunk is found if and only if some configured peer, wherever it stands, serves acceptable bytes. |
| `Download.FetchSucceeds` | src/core/dss/dss_client.cpp:158-277 | Where every piece is offered, and nothing else passes for it, getFile writes the file and returns. |
| `Download.LocalFetchSucceeds` | src/core/dss/dss_client.cpp:158-277 | A local manifest is used as it stands, whatever the peers say about manifests: where every piece it lists is offered, and nothing else passes for it, getFile writes the file and returns. |
| `Download.LocalManifestIsUsed` | src/core/dss/dss_client.cpp:167-171 | In particular the text of any printable manifest whose key, if it has one, can be had. |
| `Download.LocalRefusedIff` | src/core/dss/dss_client.cpp:161-216 | getFile refuses a local text if and only if there are no peers, it does not parse, or it carries a key of which the getter's private key makes nothing. |
| `Download.AccessIs` | src/core/dss/dss_client.cpp:205-216 | What getFile goes by: no key if the manifest says unencrypted or carries none, the first 32 and the next 12 bytes that the private key makes of it, and otherwise an exception. |
| `Download.ShortIsNotAccepted` | src/core/dss/dss_client.cpp:247-263 | Under a key, bytes too few for a 16-byte tag are never accepted. |
| `Download.PrefixMakesNoDifference` | src/core/dss/dss_client.cpp:17-23 | A share id is good with its prefix or without. |
| `Download.ResponsiblePeersComeFirst` | src/core/dss/dss_client.cpp:172-268 | Each piece is taken from the first of the peers responsible for it that offers one, the manifest's being those for "manifest:" and its hash. |
| `DssGet.Getter.FindCandidates` | src/core/dss/dss_client.cpp:229-243 | The nested loops build the candidate list. |
| `DssGet.Getter.TryChunk` | src/core/dss/dss_client.cpp:247-261 | One candidate: the accepted plaintext, or nothing for any exception or a wrong hash. |
| `DssGet.Getter.FetchChunk` | src/core/dss/dss_client.cpp:245-268 | The loop stops at the first candidate whose bytes are accepted. |
| `DssGet.Getter.FetchManifestFromPeers` | src/core/dss/dss_client.cpp:186-202 | The loop stops at the first candidate whose manifest has the right hash and parses. |
| `DssGet.Getter.FetchChunks` | src/core/dss/dss_client.cpp:227-276 | What has been written when the loop ends or throws. |
| `DssGet.Getter.GetFile` | src/core/dss/dss_client.cpp:158-277 | getFile as it runs writes and returns what the download function says, for all answers. |
| `RoundTrip.UploadLeaves` | src/core/dss/dss_client.cpp:72-132 | After a putFile that returns, with room for it, its manifest and something under every chunk id are on all their targets. |
| `RoundTrip.PlainUploadIsHeld` | src/core/dss/dss_client.cpp:72-132 | After a plaintext putFile that returns without evictions, every target outside a set of bad ones, from which nothing is asked, holds bytes with the right hash, if none of the others held anything else under the ids. |
| `RoundTrip.HeldFileIsRetrieved` | src/core/dss/dss_client.cpp:158-277 | While a plaintext file is held on its targets getFile, by share id or local manifest, writes exactly the original bytes, with fewer bad peers than targets, answering anything, the getter's peers in any order, and the peers' other contents changing from request to request. |
| `RoundTrip.PlainRoundTrip` | src/core/dss/dss_client.cpp:33-277 | putFile, then getFile by share id or local manifest: the original bytes, with fewer bad peers than targets. |
| `EncryptedRoundTrip.LastDeliveryWins` | src/core/dss/dss_client.cpp:109-115 | Of several encrypted chunks with one id, every target ends with the ciphertext of the last, and other files are as before. |
| `EncryptedRoundTrip.HeldCipherIsRetrieved` | src/core/dss/dss_client.cpp:158-277 | While every target holds every chunk's own ciphertext, the owner of the private key gets the original bytes, by share id or local manifest, with fewer bad peers than targets and other contents changing meanwhile. |
| `EncryptedRoundTrip.EncryptedRoundTrip` | src/core/dss/dss_client.cpp:33-277 | putFile, then getFile by share id or local manifest, encrypted, with pairwise different chunks: the original bytes. |
| `EncryptedRoundTrip.RepeatedChunkIsLost` | src/core/dss/dss_client.cpp:72-118 | If two chunks are equal, nobody's bytes for the earlier are accepted, and getFile throws. |
| `EncryptedRoundTrip.EncryptedRoundTripIff` | src/core/dss/dss_client.cpp:33-277 | With every peer honest and nothing else going on, an encrypted file comes back if and only if no two of its chunks have the same hash. |
| `EndToEnd.UploadToNewPeers` | src/core/dss/dss_client.cpp:72-132 | A putFile to new, reachable peers with room returns, and its chunks and its manifest are all those peers then hold. |
| `EndToEnd.PutThenGet` | src/core/dss/dss_client.cpp:33-277 | For every file name: putFile to new peers with room returns, and getFile, by share id or by the local manifest, does what the manifest's text makes of the chunks held. It returns with exactly the original bytes if the name is one word, up to white space around it; otherwise it returns with some bytes if and only if the name by itself spells a manifest all of whose pieces are to be had and are together those bytes. Of SHA-256 only the length is assumed and that different chunks of this file have different hashes. |
| `EndToEnd.EncryptedPutThenGet` | src/core/dss/dss_client.cpp:33-277 | The same encrypted, with nothing assumed about collisions: for a name of one word getFile returns if and only if no two chunks have the same hash, and then with the original bytes; for any other if and only if the name spells a manifest whose pieces are to be had. |
| `EndToEnd.SilentLoss` | src/core/dss/dss_client.cpp:33-277 | A file of any content, encrypted or not, under a name that is a word followed by " size 0 chunk_size 1 chunks 0": putFile returns, and so does getFile, having written nothing. |
| `Retrieval.FetchIsRetrieved` | src/core/dss/dss_client.cpp:158-277 | From peers that hold for each id the last parcel sent under it, getFile gives exactly the pieces the manifest in force lists, in order, up to the first that is not to be had. |
| `Retrieval.RetrievedIff` | src/core/dss/dss_client.cpp:227-276 | It returns with certain bytes if and only if all pieces listed are to be had and are together those bytes. |
| `Retrieval.PlainGivesBackIff` | src/core/dss/dss_client.cpp:227-276 | From a plaintext upload, under a manifest without a key: if and only if the ids listed are those of chunks of the file which are together those bytes. |
| `Interleaving.ClientStepKeepsSound` | src/core/dss/dss_client.cpp:72-132 | One request of one client, whatever becomes of it, leaves every peer with nothing but bytes under their own hash, evictions or not, and with index and directory in agreement. |
| `Interleaving.StoredBytesMatchTheirIds` | src/core/dss/dss_client.cpp:72-132 | Over every interleaving of plaintext clients and of all other requests, with requests refused, cut, unanswered or met by a failing write, and clients that die, under any quotas, whatever a peer holds under an id has that id as its hash. |
| `Interleaving.ReturnedMeansHeld` | src/core/dss/dss_client.cpp:87-132 | Without evictions, but whatever else goes wrong, once a client's putFile has returned, all targets hold all its chunks and its manifest, despite the gap between check and upload. |
| `Interleaving.SharedFileStaysRetrievable` | src/core/dss/dss_client.cpp:33-277 | After the client's putFile has returned, and while nothing is evicted, getFile on the share id writes exactly the original bytes, with fewer bad peers than targets, each of its requests served at a later moment of its own while the other clients go on. |
| `Interleaving.UploadsMayStart` | src/core/dss/dss_client.cpp:33-132 | The chunks of every plaintext putFile are parcels, and its state at the start a client, that the two results above apply to. |
| `OneClient.AloneIsPutFile` | src/core/dss/dss_client.cpp:72-132 | Whatever becomes of its requests, such a client left alone ends returned if and only if the upload function under the same failures returns, and leaves exactly the peers that function says. |
| `OneClient.AloneIsRun` | src/core/dss/dss_client.cpp:72-132 | A client alone is a run of the interleaving with one client in it. |
| `OneClient.ReturnedUploadIsHeld` | src/core/dss/dss_client.cpp:72-132 | Whatever connections failed, answers were lost and peers could not write: once a plaintext putFile has returned, having evicted nothing, all targets hold all its chunks and its manifest. |
| `OneClient.ReturnedFileIsRetrieved` | src/core/dss/dss_client.cpp:33-277 | And getFile writes exactly the original bytes, with fewer bad peers than targets. |
| `Interleaving.EmptyPeersAreSound` | src/core/storage/storage_manager.cpp:9-28 | So is every empty peer, under any quota. |
| `Tracker.PeersAre` | src/tracker/main.cpp:142-169 | After any history the peer map is the registered peers with the times they were last seen. |
| `Tracker.LocationsAre` | src/tracker/main.cpp:171-196 | After any history the chunk index is the announcements not followed by a pruning request that found the peer registered and expired; strangers included. |
| `Tracker.WhereAgreesWithHistory` | src/tracker/main.cpp:197-224 | With a clock that does not go back, WHERE returns a peer if and only if it was seen within the TTL and its announcement was not so expelled. |
| `Tracker.SteadyPeersAreReturned` | src/tracker/main.cpp:197-224 | A peer that announced a chunk and never went silent beyond the TTL is always returned. |
| `Tracker.SilentPeersAreNotReturned` | src/tracker/main.cpp:197-224 | A peer not seen within the TTL never is. |
| `Tracker.GetPeersAgreesWithHistory` | src/tracker/main.cpp:257-274 | GET_PEERS lists a peer if and only if it was seen within the TTL. |
| `Tracker.PruneKeepsAnswers` | src/tracker/main.cpp:40-72 | Pruning changes no answer of WHERE, and leaves registered locations that are all such answers. |
| `TrackerService.Service.constructor` | src/tracker/main.cpp:107-110 | The tracker starts with nothing. |
| `TrackerService.Service.EraseExpired` | src/tracker/main.cpp:47-57 | Erasing while iterating removes exactly the expired peers and collects them. |
| `TrackerService.Service.PruneStaleAndCleanup` | src/tracker/main.cpp:40-72 | The three loops together prune as specified, also when nobody is dead and the index is left alone. |
| `TrackerService.Service.AnnounceChunk` | src/tracker/main.cpp:171-196 | An announcement is recorded whether or not the peer is alive, or known. |
| `TrackerService.Service.WhereIs` | src/tracker/main.cpp:209-219 | Each recorded location seen within the TTL is listed once. |
| `TrackerService.Service.ReportNeedy` | src/tracker/main.cpp:236-250 | The loop lists different chunks with some but too few alive locations, all of them unless the limit is reached. |
| `TrackerService.Service.ChunksToRepair` | src/tracker/main.cpp:225-255 | NEED_REPAIR counts, after pruning, exactly the locations WHERE would have returned before it. |
| `TrackerService.Service.ListPeers` | src/tracker/main.cpp:257-274 | GET_PEERS lists exactly the peers within the TTL; its own second pruning loop finds nothing to do. |
| `TrackerService.Service.Handle` | src/tracker/main.cpp:137-277 | One request line, parsed and dispatched: the new state, and an answer that meets the command's specification. |
| `TrackerService.Service.Serve` | src/tracker/main.cpp:113-280 | The loop over connections: each line is answered from what the lines before it have left. |
| `Readings.CommandIsRead` | src/tracker/main.cpp:137-277 | Any line at all is read as its words say, by position, with the defaults 2 and 50 of NEED_REPAIR, and everything else rejected. |
| `TrackerLines.RegisterAsWritten` | src/tracker/main.cpp:142-169 | REGISTER and HEARTBEAT with an address and a port from 1 to 65535 register "address:port". |
| `TrackerLines.AnnounceAsWritten` | src/tracker/main.cpp:171-224 | ANNOUNCE with a chunk, an address and a port announces the chunk at "address:port", and WHERE asks for it. |
| `TrackerLines.RepairAsWritten` | src/tracker/main.cpp:225-230 | NEED_REPAIR with up to two numbers, of which 0 stands for the default. |
| `TrackerLines.RejectedIff` | src/tracker/main.cpp:142-277 | A line is rejected if and only if it registers nothing, announces nothing and is no query. |
| `TrackerLines.WhereListsAnnouncers` | src/tracker/main.cpp:113-280 | Over any session of lines: WHERE lists every "address:port" that registered within the last thirty seconds and then announced the chunk, none that never announced it, and none that has not registered within the last thirty seconds. |
| `TrackerLines.PeersListedAreSeen` | src/tracker/main.cpp:113-280 | Over any session of lines: GET_PEERS lists exactly those that registered or sent a heartbeat within the last thirty seconds. |
| `TrackerLines.RepairsAreShort` | src/tracker/main.cpp:225-255 | Over any session of lines: NEED_REPAIR reports chunks with some but too few of the peers WHERE would list, with their number, and all such chunks below the limit. |
| `TrackerLines.OkOrError` | src/tracker/main.cpp:142-277 | OK is the answer exactly to what registers or announces, an error exactly to what is rejected. |

## Left out

* The graphical client, the command line, settings, progress reports, worker threads, `repair` (which only throws),
  the client of the tracker and the parsing of peer addresses.
* Sockets, name resolution, timeouts and peers that hang: a connection is a byte sequence that arrives in pieces and
  may end at any point. `recv_all_text`, which reads a reply until the peer closes, is the whole reply.
* A reply of which only a part could be sent, which the server ignores, is a connection cut short.
* Crashes in the middle of an operation, and file-system errors other than in opening and renaming a chunk's temporary
  file and opening a manifest: saving `metadata.db`, removing and reading files always succeed, and what has been
  opened is written in full; a short write, which `storeChunk` does not notice, is not modelled. Names with a slash,
  which the file system reads as a path, are not treated specially; a manifest with an empty id cannot be stored.
* The size of the numbers: counters, totals and sizes are unbounded, except in the unguarded subtraction of an
  eviction. That a later store may wrap a wrapped total back is not modelled. Numbers in texts are read as decimal
  digits; signs and overflow are not modelled.
* Ciphers and key files: SHA-256, AES-GCM and RSA are functions, an encryption under one RSA key has one outcome, and
  a ciphertext never opens under another vector. That a file key is new for every upload is not modelled.
* Reading errors of the input file, and write errors of the local manifest and the output file once they are open. The
  output file is what has been written to it.
* `getFile` runs against a function of replies, one for each request to each peer, rather than against the services
  themselves. That a reply over a connection is the peer's data or an exception is `Peers.GetChunkOverTheWire`; that
  its own reads change only ages at the peers is `StoreRuns.LoadKeeps`.
* The order in which hash tables are iterated is arbitrary, and the lines of a tracker's answer are a set or a list.
- ManifestIsRead: where a number is expected, words such as "12ab", in the middle of which formatted input goes on,
  are left aside; so they are in `DatabaseIsRead`.
- TargetsAreNearest: assumes that no two configured peers have the same id, as `TargetsAfterDepartures`,
  `TargetsAfterArrival` and `NearestAreSentTo` do; `PlacementIs` does not.
- RoutingTable.Sort: an insertion sort stands in for the library's; nothing but the standard's contract is used of it.
- LastingInclusionIff: is exact for inclusion that lasts whatever is stored next. A run on which it does not last may
  still end with the smaller store included by luck of what was stored; that is not told apart.
- AccountedAfterRunIff: assumes that no eviction of the run wraps, which `NeverWrapsIff` decides step by step; a loop
  that does wrap leaves the total above the sum (`WrapEmptiesStore`).
- ReturnedMeansHeld: assumes that no request of the run evicts anything, as a peer that evicts does lose chunks; so do
  `ReturnedUploadIsHeld` and `ReturnedFileIsRetrieved`.
