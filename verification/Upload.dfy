/**
 * What putFile does to a network of peers (src/core/dss/dss_client.cpp): the parcels a file becomes, where each goes,
 * and the state of the peers once they have been delivered.
 */
module Upload {
  import opened Basics
  import opened Store
  import opened Recency
  import opened StoreRuns
  import opened Kademlia
  import opened Routing
  import opened Chunking
  import opened Manifest
  import opened Peers
  import Framing

  /** The cryptography, as functions: SHA-256, AES-256-GCM with a key and a vector, RSA with a key file. **/
  datatype Crypto = Crypto(
    digest: string -> Bytes,
    seal: (string, Bytes, Bytes) -> string,
    open: (string, Bytes, Bytes) -> Option<string>,
    wrap: (string, Bytes) -> Bytes,
    unwrap: (string, Bytes) -> Option<Bytes>)

  // What generate_file_key draws.
  datatype FileKey = FileKey(key: Bytes, iv: Bytes) {
    predicate Valid() {
      |key| == 32 && |iv| == 12
    }
  }

  datatype Config = Config(
    peers: seq<Endpoint>, chunkSize: nat, desiredReplicas: int, publicKey: string, privateKey: string)
  {
    predicate Encrypts() {
      publicKey != ""
    }

    function Replicas(): int {
      var wanted := if desiredReplicas <= 0 then 1 else desiredReplicas;
      if wanted > |peers| then |peers| else wanted
    }
  }

  // Something to be sent, under an id, to its targets.
  datatype Parcel = Parcel(id: string, payload: string, targets: seq<Endpoint>)

  datatype Upload = Upload(parcels: seq<Parcel>, dedup: bool, manifest: Parcel)

  // The bytes of chunk i as they travel.
  function Payload(crypto: Crypto, cfg: Config, key: FileKey, chunk: string, i: nat): string
    requires key.Valid()
  {
    if cfg.Encrypts() then crypto.seal(chunk, key.key, DeriveIv(key.iv, i).value) else chunk
  }

  function ChunkId(crypto: Crypto, chunk: string): string {
    Sha256Hex(crypto.digest, chunk)
  }

  function ChunkParcel(crypto: Crypto, cfg: Config, key: FileKey, chunk: string, i: nat): Parcel
    requires key.Valid()
  {
    var id := ChunkId(crypto, chunk);
    Parcel(id, Payload(crypto, cfg, key, chunk, i), Placement(crypto.digest, cfg.peers, id, cfg.Replicas()))
  }

  function Parcels(crypto: Crypto, cfg: Config, key: FileKey, chunks: seq<string>): (r: seq<Parcel>)
    requires key.Valid()
    ensures |r| == |chunks| && forall i | 0 <= i < |r| :: r[i] == ChunkParcel(crypto, cfg, key, chunks[i], i)
  {
    seq(|chunks|, i requires 0 <= i < |chunks| => ChunkParcel(crypto, cfg, key, chunks[i], i))
  }

  function ChunkIds(crypto: Crypto, chunks: seq<string>): (r: seq<string>)
    ensures |r| == |chunks| && forall i | 0 <= i < |r| :: r[i] == ChunkId(crypto, chunks[i])
  {
    seq(|chunks|, i requires 0 <= i < |chunks| => ChunkId(crypto, chunks[i]))
  }

  function ManifestOf(crypto: Crypto, cfg: Config, key: FileKey, name: string, content: string): Manifest
    requires cfg.chunkSize > 0
  {
    var ids := ChunkIds(crypto, Split(content, cfg.chunkSize));
    if cfg.Encrypts()
    then Manifest(name, |content|, cfg.chunkSize, ids, true, "AES-256-GCM", "RSA",
                  ToHex(crypto.wrap(cfg.publicKey, key.key + key.iv)))
    else Manifest(name, |content|, cfg.chunkSize, ids, false, "", "", "")
  }

  function ManifestParcel(crypto: Crypto, cfg: Config, m: Manifest): Parcel {
    var text := Serialize(m);
    var id := Sha256Hex(crypto.digest, text);
    Parcel(id, text, Placement(crypto.digest, cfg.peers, "manifest:" + id, cfg.Replicas()))
  }

  function UploadOf(crypto: Crypto, cfg: Config, key: FileKey, name: string, content: string): Upload
    requires cfg.chunkSize > 0 && key.Valid()
  {
    Upload(Parcels(crypto, cfg, key, Split(content, cfg.chunkSize)), !cfg.Encrypts(),
           ManifestParcel(crypto, cfg, ManifestOf(crypto, cfg, key, name, content)))
  }

  // Everything putFile sends fits a 64-bit size.
  ghost predicate MachineSized(u: Upload) {
    |u.manifest.payload| < TWO_TO_64 && forall i | 0 <= i < |u.parcels| :: |u.parcels[i].payload| < TWO_TO_64
  }

  // Never more targets than replicas: what the deduplicating branch relies on.
  ghost predicate Sendable(p: Parcel) {
    Distinct(p.targets) && IsChunkId(p.id)
  }

  lemma Sha256HexIsChunkId(digest: string -> Bytes, data: string)
    requires Is256Bit(digest)
    ensures IsChunkId(Sha256Hex(digest, data)) && |Sha256Hex(digest, data)| == 64
  {
    HexIdsAreChunkIds(Sha256Hex(digest, data));
  }

  lemma ChunkParcelIsSendable(crypto: Crypto, cfg: Config, key: FileKey, chunk: string, i: nat)
    requires Is256Bit(crypto.digest) && key.Valid() && cfg.peers != []
    ensures Sendable(ChunkParcel(crypto, cfg, key, chunk, i))
    ensures |ChunkParcel(crypto, cfg, key, chunk, i).targets| <= cfg.Replicas()
  {
    Sha256HexIsChunkId(crypto.digest, chunk);
    PlacementIs(crypto.digest, cfg.peers, ChunkId(crypto, chunk), cfg.Replicas());
  }

  /** Delivery **/

  // The reachable peers.
  type Net = map<Endpoint, Peer>

  ghost function SendChunk(net: Net, p: Endpoint, id: string, data: string): Net
    requires p in net
  {
    net[p := PeerStep(net[p], Framing.PutChunk(id, data), Complete)]
  }

  ghost function SendManifest(net: Net, p: Endpoint, id: string, text: string): Net
    requires p in net
  {
    net[p := PeerStep(net[p], Framing.PutManifest(id, text), Complete)]
  }

  predicate Reachable(net: Net, targets: seq<Endpoint>) {
    forall t | t in targets :: t in net
  }

  // One after the other, until one cannot be reached.
  ghost function SendChunkTo(net: Net, targets: seq<Endpoint>, id: string, data: string): (Net, bool) {
    if targets == [] then (net, true)
    else if targets[0] !in net then (net, false)
    else SendChunkTo(SendChunk(net, targets[0], id, data), targets[1..], id, data)
  }

  ghost function SendManifestTo(net: Net, targets: seq<Endpoint>, id: string, text: string): (Net, bool) {
    if targets == [] then (net, true)
    else if targets[0] !in net then (net, false)
    else SendManifestTo(SendManifest(net, targets[0], id, text), targets[1..], id, text)
  }

  // The targets that say they do not have the chunk.
  function Missing(net: Net, targets: seq<Endpoint>, id: string): (r: seq<Endpoint>)
    requires Reachable(net, targets)
    ensures forall t | t in r :: t in targets && id !in net[t].store.meta
    ensures forall t | t in targets && id !in net[t].store.meta :: t in r
    ensures |r| <= |targets|
  {
    if targets == [] then []
    else if id in net[targets[0]].store.meta then Missing(net, targets[1..], id)
    else [targets[0]] + Missing(net, targets[1..], id)
  }

  ghost function Deliver(net: Net, p: Parcel, dedup: bool): (Net, bool) {
    if !dedup then SendChunkTo(net, p.targets, p.id, p.payload)
    else if Reachable(net, p.targets) then SendChunkTo(net, Missing(net, p.targets, p.id), p.id, p.payload)
    else (net, false)
  }

  ghost function DeliverAll(net: Net, parcels: seq<Parcel>, dedup: bool): (Net, bool)
    decreases parcels
  {
    if parcels == [] then (net, true)
    else
      var (net', ok) := Deliver(net, parcels[0], dedup);
      if ok then DeliverAll(net', parcels[1..], dedup) else (net', false)
  }

  ghost function RunUpload(net: Net, u: Upload): (Net, bool) {
    var (net', ok) := DeliverAll(net, u.parcels, u.dedup);
    if ok then SendManifestTo(net', u.manifest.targets, u.manifest.id, u.manifest.payload) else (net', false)
  }

  /** No store below evicts anything **/

  ghost predicate AllConsistent(net: Net) {
    forall q | q in net :: Consistent(net[q].store)
  }

  // Storing the chunk at these peers leaves each of them within its limit.
  ghost predicate FitsAt(net: Net, recipients: seq<Endpoint>, id: string, size: nat) {
    forall q | q in recipients && q in net :: Fits(net[q].store, id, size)
  }

  // What storing one more chunk at p makes of p.
  ghost predicate StoredAt(before: Peer, after: Peer, id: string, data: string) {
    && after.store.files == before.store.files[id := data]
    && after.store.meta.Keys == before.store.meta.Keys + {id}
    && after.manifests == before.manifests
  }

  lemma SendChunkIs(net: Net, p: Endpoint, id: string, data: string)
    requires p in net && Consistent(net[p].store) && Fits(net[p].store, id, |data|) && IsChunkId(id)
    ensures var net' := SendChunk(net, p, id, data);
      StoredAt(net[p], net'[p], id, data) && Consistent(net'[p].store)
  {
    StoreWithRoom(net[p].store, id, data);
  }

  // Every target stores the data; everyone else is as before.
  lemma {:induction false} SendChunkToIs(net: Net, targets: seq<Endpoint>, id: string, data: string)
    requires Reachable(net, targets) && Distinct(targets) && IsChunkId(id)
    requires AllConsistent(net) && FitsAt(net, targets, id, |data|)
    ensures SendChunkTo(net, targets, id, data).1
    ensures var net' := SendChunkTo(net, targets, id, data).0;
      && net'.Keys == net.Keys && AllConsistent(net')
      && (forall p | p in net && p in targets :: StoredAt(net[p], net'[p], id, data))
      && (forall p | p in net && p !in targets :: net'[p] == net[p])
  {
    if targets != [] {
      var t, rest := targets[0], targets[1..];
      assert targets == [t] + rest;
      assert t !in rest;
      SendChunkIs(net, t, id, data);
      SendChunkToIs(SendChunk(net, t, id, data), rest, id, data);
    }
  }

  lemma {:induction false} MissingDistinct(net: Net, targets: seq<Endpoint>, id: string)
    requires Reachable(net, targets) && Distinct(targets)
    ensures Distinct(Missing(net, targets, id))
  {
    if targets != [] {
      assert targets == [targets[0]] + targets[1..] && targets[0] !in targets[1..];
      MissingDistinct(net, targets[1..], id);
      DistinctCons(targets[0], Missing(net, targets[1..], id));
    }
  }

  // Who is sent the parcel.
  function Recipients(net: Net, p: Parcel, dedup: bool): seq<Endpoint>
    requires Reachable(net, p.targets)
  {
    if dedup then Missing(net, p.targets, p.id) else p.targets
  }

  ghost predicate DeliveredTo(net: Net, net': Net, p: Parcel, recipients: seq<Endpoint>) {
    && net'.Keys == net.Keys
    && (forall q | q in net && q in recipients :: StoredAt(net[q], net'[q], p.id, p.payload))
    && (forall q | q in net && q !in recipients :: net'[q] == net[q])
  }

  lemma DeliverIs(net: Net, p: Parcel, dedup: bool)
    requires Reachable(net, p.targets) && Sendable(p)
    requires AllConsistent(net) && FitsAt(net, Recipients(net, p, dedup), p.id, |p.payload|)
    ensures Deliver(net, p, dedup).1
    ensures AllConsistent(Deliver(net, p, dedup).0)
    ensures DeliveredTo(net, Deliver(net, p, dedup).0, p, Recipients(net, p, dedup))
  {
    MissingDistinct(net, p.targets, p.id);
    SendChunkToIs(net, Recipients(net, p, dedup), p.id, p.payload);
  }

  // Nothing is delivered where a target cannot be reached.
  lemma {:induction false} SendChunkToFails(net: Net, targets: seq<Endpoint>, id: string, data: string)
    requires SendChunkTo(net, targets, id, data).1
    ensures Reachable(net, targets)
  {
    if targets != [] {
      assert targets == [targets[0]] + targets[1..];
      SendChunkToFails(SendChunk(net, targets[0], id, data), targets[1..], id, data);
    }
  }

  lemma {:induction false} SendChunkToReaches(net: Net, targets: seq<Endpoint>, id: string, data: string)
    requires Reachable(net, targets)
    ensures SendChunkTo(net, targets, id, data).1
  {
    if targets != [] {
      assert targets[0] in targets;
      SendChunkToReaches(SendChunk(net, targets[0], id, data), targets[1..], id, data);
    }
  }

  lemma DeliverReaches(net: Net, p: Parcel, dedup: bool)
    requires Deliver(net, p, dedup).1
    ensures Reachable(net, p.targets)
  {
    if !dedup {
      SendChunkToFails(net, p.targets, p.id, p.payload);
    }
  }

  /** One parcel, deduplicated or not **/

  /**
   * After a deduplicated delivery a target holds the right bytes exactly if it did not have the id before, or had it
   * with the right bytes: a target that has the id with other bytes keeps them.
   */
  lemma DedupHoldsIff(net: Net, p: Parcel, t: Endpoint)
    requires Reachable(net, p.targets) && Sendable(p) && t in p.targets
    requires AllConsistent(net) && FitsAt(net, Missing(net, p.targets, p.id), p.id, |p.payload|)
    ensures t in Deliver(net, p, true).0
    ensures var after := Deliver(net, p, true).0[t].store.files; var before := net[t].store.files;
      && p.id in after
      && (after[p.id] == p.payload <==> p.id !in before || before[p.id] == p.payload)
  {
    DeliverIs(net, p, true);
    StoresAgree(net, t);
  }

  lemma StoresAgree(net: Net, t: Endpoint)
    requires AllConsistent(net) && t in net
    ensures net[t].store.meta.Keys == net[t].store.files.Keys
  {
  }

  function FilesOf(net: Net): map<Endpoint, map<string, string>> {
    map p | p in net :: net[p].store.files
  }

  lemma SameMap<A, B>(m: map<A, B>, n: map<A, B>)
    requires m.Keys == n.Keys
    ensures m == n <==> forall k | k in m :: m[k] == n[k]
  {
  }

  /** Whole files **/

  ghost predicate AllSendable(parcels: seq<Parcel>) {
    forall i | 0 <= i < |parcels| :: Sendable(parcels[i])
  }

  // All the parcel's targets have something under its id.
  ghost predicate Indexed(net: Net, p: Parcel) {
    forall t | t in p.targets :: t in net && p.id in net[t].store.meta
  }

  // No delivery on the way evicts anything: at every store of a chunk the guard of the eviction loop is false.
  ghost predicate NothingEvicted(net: Net, parcels: seq<Parcel>, dedup: bool)
    decreases parcels
  {
    parcels == [] ||
    (Reachable(net, parcels[0].targets) ==>
       && FitsAt(net, Recipients(net, parcels[0], dedup), parcels[0].id, |parcels[0].payload|)
       && NothingEvicted(Deliver(net, parcels[0], dedup).0, parcels[1..], dedup))
  }

  // Once delivered, every parcel is on all its targets, and nothing else has gone.
  lemma {:induction false} DeliverAllIs(net: Net, parcels: seq<Parcel>, dedup: bool)
    requires AllSendable(parcels) && AllConsistent(net) && NothingEvicted(net, parcels, dedup)
    requires DeliverAll(net, parcels, dedup).1
    ensures var net' := DeliverAll(net, parcels, dedup).0;
      && Grows(net, net') && AllConsistent(net')
      && (forall i | 0 <= i < |parcels| :: Indexed(net', parcels[i]))
  {
    if parcels != [] {
      var p, rest := parcels[0], parcels[1..];
      FirstDelivery(net, parcels, dedup);
      var net1 := Deliver(net, p, dedup).0;
      DeliveredGrows(net, net1, p, dedup);
      DeliverAllIs(net1, rest, dedup);
      var net' := DeliverAll(net1, rest, dedup).0;
      IndexedGrows(net1, net', p);
      forall i | 0 <= i < |parcels| ensures Indexed(net', parcels[i]) {
        if i > 0 {
          assert parcels[i] == rest[i - 1];
        }
      }
      GrowsTransitive(net, net1, net');
    }
  }

  // The first of several deliveries that all succeed.
  lemma FirstDelivery(net: Net, parcels: seq<Parcel>, dedup: bool)
    requires parcels != [] && AllSendable(parcels) && AllConsistent(net) && NothingEvicted(net, parcels, dedup)
    requires DeliverAll(net, parcels, dedup).1
    ensures var net' := Deliver(net, parcels[0], dedup).0;
      && Reachable(net, parcels[0].targets)
      && AllConsistent(net') && DeliveredTo(net, net', parcels[0], Recipients(net, parcels[0], dedup))
      && NothingEvicted(net', parcels[1..], dedup) && DeliverAll(net', parcels[1..], dedup).1
      && DeliverAll(net, parcels, dedup) == DeliverAll(net', parcels[1..], dedup)
      && AllSendable(parcels[1..])
  {
    DeliverReaches(net, parcels[0], dedup);
    assert Sendable(parcels[0]);
    DeliverIs(net, parcels[0], dedup);
  }

  // Peers gain chunks and lose none; manifests stay.
  ghost predicate Grows(net: Net, net': Net) {
    && net'.Keys == net.Keys
    && (forall q | q in net :: net'[q].store.meta.Keys >= net[q].store.meta.Keys)
    && (forall q | q in net :: net'[q].manifests == net[q].manifests)
  }

  lemma GrowsTransitive(a: Net, b: Net, c: Net)
    requires Grows(a, b) && Grows(b, c)
    ensures Grows(a, c)
  {
  }

  lemma DeliveredGrows(net: Net, net': Net, p: Parcel, dedup: bool)
    requires Reachable(net, p.targets) && DeliveredTo(net, net', p, Recipients(net, p, dedup))
    ensures Grows(net, net') && Indexed(net', p)
  {
    forall q | q in net
      ensures net'[q].store.meta.Keys >= net[q].store.meta.Keys && net'[q].manifests == net[q].manifests
    {
      if q in Recipients(net, p, dedup) {
        assert StoredAt(net[q], net'[q], p.id, p.payload);
      }
    }
    forall t | t in p.targets ensures p.id in net'[t].store.meta {
      if t in Recipients(net, p, dedup) {
        assert StoredAt(net[t], net'[t], p.id, p.payload);
      }
    }
  }

  lemma IndexedGrows(net: Net, net': Net, p: Parcel)
    requires Grows(net, net') && Indexed(net, p)
    ensures Indexed(net', p)
  {
    forall t | t in p.targets ensures t in net' && p.id in net'[t].store.meta {
      assert p.id in net[t].store.meta.Keys;
    }
  }

  lemma {:induction false} NoneMissing(net: Net, targets: seq<Endpoint>, id: string)
    requires Reachable(net, targets) && forall t | t in targets :: id in net[t].store.meta
    ensures Missing(net, targets, id) == []
  {
    if targets != [] {
      assert targets[0] in targets;
      NoneMissing(net, targets[1..], id);
    }
  }

  /** Delivering the same parcels again, deduplicated, sends nothing: not one store is touched. **/
  lemma {:induction false} RedeliveryChangesNothing(net: Net, parcels: seq<Parcel>)
    requires forall i | 0 <= i < |parcels| :: Indexed(net, parcels[i])
    ensures DeliverAll(net, parcels, true) == (net, true)
  {
    if parcels != [] {
      assert Indexed(net, parcels[0]);
      NoneMissing(net, parcels[0].targets, parcels[0].id);
      assert Deliver(net, parcels[0], true) == (net, true);
      forall i | 0 <= i < |parcels| - 1 ensures Indexed(net, parcels[1..][i]) {
        assert parcels[1..][i] == parcels[i + 1];
      }
      RedeliveryChangesNothing(net, parcels[1..]);
    }
  }

  lemma RepeatedUploadSendsNothing(net: Net, parcels: seq<Parcel>)
    requires AllSendable(parcels) && AllConsistent(net) && NothingEvicted(net, parcels, true)
    requires DeliverAll(net, parcels, true).1
    ensures DeliverAll(DeliverAll(net, parcels, true).0, parcels, true) == (DeliverAll(net, parcels, true).0, true)
  {
    DeliverAllIs(net, parcels, true);
    RedeliveryChangesNothing(DeliverAll(net, parcels, true).0, parcels);
  }
}
