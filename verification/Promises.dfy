/**
 * What a caller of putFile can rely on, said of the configuration's fields and of what the call returns: what is sent
 * and to whom, what the peers hold afterwards, and that the share id and the local manifest lead back to the file.
 */
module Promises {
  import opened Basics
  import opened Kademlia
  import opened Routing
  import opened Placements
  import opened Chunking
  import opened Manifest
  import opened Upload
  import opened Download
  import opened FileNames
  import opened RoundTrip
  import opened EncryptedRoundTrip
  import opened Deduplication
  import opened Faults
  import opened Interleaving
  import opened OneClient
  import opened DssClient

  /** What is sent **/

  // The bytes of chunk i on their way: enciphered if, and only if, there is a public key.
  function Sent(crypto: Crypto, cfg: Config, key: FileKey, chunk: string, i: nat): string
    requires key.Valid()
  {
    if cfg.publicKey == "" then chunk else crypto.seal(chunk, key.key, DeriveIv(key.iv, i).value)
  }

  ghost predicate SendsChunks(crypto: Crypto, cfg: Config, key: FileKey, chunks: seq<string>, u: Upload)
    requires key.Valid()
  {
    && |u.parcels| == |chunks| && (u.dedup <==> cfg.publicKey == "")
    && forall i | 0 <= i < |chunks| ::
         && u.parcels[i].id == Sha256Hex(crypto.digest, chunks[i])
         && u.parcels[i].payload == Sent(crypto, cfg, key, chunks[i], i)
  }

  // What a manifest says of a file and of its key.
  ghost predicate IsManifestOf(crypto: Crypto, cfg: Config, key: FileKey, name: string, content: string, m: Manifest)
    requires cfg.chunkSize > 0
  {
    var chunks := Split(content, cfg.chunkSize);
    && m.originalName == name && m.originalSize == |content| && m.chunkSize == cfg.chunkSize
    && |m.chunks| == |chunks| && (forall i | 0 <= i < |chunks| :: m.chunks[i] == Sha256Hex(crypto.digest, chunks[i]))
    && (if cfg.publicKey == "" then !m.encrypted && m.encAlgo == m.keyEncAlgo == m.encryptedKeyHex == ""
        else && m.encrypted && m.encAlgo == "AES-256-GCM" && m.keyEncAlgo == "RSA"
             && FromHex(m.encryptedKeyHex) == Some(crypto.wrap(cfg.publicKey, key.key + key.iv)))
  }

  /**
   * With a public key configured every chunk is sent enciphered, each under its own vector, and not deduplicated, and
   * the manifest says so and carries the wrapped key; without one every chunk is sent as it is, and deduplicated, and
   * the manifest carries no key. The rest of the manifest describes the file in either case.
   */
  lemma KeyDecides(crypto: Crypto, cfg: Config, key: FileKey, name: string, content: string) returns (m: Manifest)
    requires key.Valid() && cfg.chunkSize > 0
    ensures var u := UploadOf(crypto, cfg, key, name, content);
      && SendsChunks(crypto, cfg, key, Split(content, cfg.chunkSize), u)
      && u.manifest.payload == Serialize(m) && u.manifest.id == Sha256Hex(crypto.digest, Serialize(m))
      && IsManifestOf(crypto, cfg, key, name, content, m)
  {
    m := ManifestOf(crypto, cfg, key, name, content);
    HexRoundTrip(crypto.wrap(cfg.publicKey, key.key + key.iv));
  }

  /** To whom **/

  /**
   * Each chunk and the manifest go to the configured number of peers, at least one, or to all there are: those nearest
   * to the chunk's hash, and to the manifest's with "manifest:" in front.
   */
  lemma NearestAreSentTo(crypto: Crypto, cfg: Config, key: FileKey, name: string, content: string)
    requires Is256Bit(crypto.digest) && NoIdClash(crypto.digest, cfg.peers) && cfg.peers != []
    requires key.Valid() && cfg.chunkSize > 0
    ensures var u, n := UploadOf(crypto, cfg, key, name, content), Wanted(cfg.desiredReplicas);
      && (forall i | 0 <= i < |u.parcels| ::
            AreNearest(crypto.digest, cfg.peers, u.parcels[i].id, n, u.parcels[i].targets))
      && AreNearest(crypto.digest, cfg.peers, "manifest:" + u.manifest.id, n, u.manifest.targets)
  {
    var u := UploadOf(crypto, cfg, key, name, content);
    forall i | 0 <= i < |u.parcels|
      ensures AreNearest(crypto.digest, cfg.peers, u.parcels[i].id, Wanted(cfg.desiredReplicas), u.parcels[i].targets)
    {
      PlacedAtNearest(crypto, cfg, u.parcels[i].id);
    }
    PlacedAtNearest(crypto, cfg, "manifest:" + u.manifest.id);
  }

  // More replicas than configured peers come to the same as all of them.
  lemma PlacedAtNearest(crypto: Crypto, cfg: Config, key: string)
    requires Is256Bit(crypto.digest) && NoIdClash(crypto.digest, cfg.peers) && cfg.peers != []
    ensures AreNearest(crypto.digest, cfg.peers, key, Wanted(cfg.desiredReplicas),
                       Placement(crypto.digest, cfg.peers, key, cfg.Replicas()))
  {
    TargetsAreNearest(crypto.digest, cfg.peers, key, cfg.Replicas());
  }

  /** What the peers hold afterwards **/

  // The ciphertext of the last chunk with this hash.
  ghost predicate IsLastSealed(crypto: Crypto, key: FileKey, chunks: seq<string>, id: string, data: string)
    requires key.Valid()
  {
    exists k :: && 0 <= k < |chunks| && Sha256Hex(crypto.digest, chunks[k]) == id
                && (forall j | k < j < |chunks| :: Sha256Hex(crypto.digest, chunks[j]) != id)
                && data == crypto.seal(chunks[k], key.key, DeriveIv(key.iv, k).value)
  }

  ghost predicate IsChunk(crypto: Crypto, chunks: seq<string>, id: string, data: string) {
    data in chunks && Sha256Hex(crypto.digest, data) == id
  }

  // Under the hash of a chunk a target has its ciphertext, or, where there is no key, what it had, or else the chunk.
  ghost predicate LeftAt(crypto: Crypto, cfg: Config, key: FileKey, chunks: seq<string>, id: string,
                         was: map<string, string>, now: map<string, string>)
    requires key.Valid()
  {
    && id in now
    && if cfg.publicKey != "" then IsLastSealed(crypto, key, chunks, id, now[id])
       else if id in was then now[id] == was[id] else IsChunk(crypto, chunks, id, now[id])
  }

  lemma LastIsSealed(crypto: Crypto, cfg: Config, key: FileKey, chunks: seq<string>, i: nat, t: Endpoint,
                     was: map<string, string>, now: map<string, string>)
    requires key.Valid() && cfg.publicKey != "" && i < |chunks|
    requires var p := Parcels(crypto, cfg, key, chunks);
      SameTargets(p) && t in p[i].targets && Final(was, now, p, t, p[i].id)
    ensures LeftAt(crypto, cfg, key, chunks, Sha256Hex(crypto.digest, chunks[i]), was, now)
  {
    var p, id := Parcels(crypto, cfg, key, chunks), Sha256Hex(crypto.digest, chunks[i]);
    assert p[i].id == id;
    var k := LastWith(p, id).value;
    forall j | k < j < |chunks| ensures Sha256Hex(crypto.digest, chunks[j]) != id {
      assert p[j].id == Sha256Hex(crypto.digest, chunks[j]);
    }
    assert p[k].targets == p[i].targets;
    assert IsLastSealed(crypto, key, chunks, id, now[id]);
  }

  lemma FirstIsChunk(crypto: Crypto, cfg: Config, key: FileKey, chunks: seq<string>, i: nat, t: Endpoint,
                     was: map<string, string>, now: map<string, string>)
    requires key.Valid() && cfg.publicKey == "" && i < |chunks|
    requires var p := Parcels(crypto, cfg, key, chunks); t in p[i].targets && FirstKept(was, now, p, t, p[i].id)
    ensures LeftAt(crypto, cfg, key, chunks, Sha256Hex(crypto.digest, chunks[i]), was, now)
  {
    var p, id := Parcels(crypto, cfg, key, chunks), Sha256Hex(crypto.digest, chunks[i]);
    assert p[i].id == id;
    var k := FirstFor(p, id, t);
    assert k.Some? && p[k.value].payload == chunks[k.value];
  }

  // The upload of these chunks went through, and evicted nothing.
  ghost predicate WentThrough(crypto: Crypto, cfg: Config, key: FileKey, chunks: seq<string>, net: Net, u: Upload)
    requires key.Valid()
  {
    && u.parcels == Parcels(crypto, cfg, key, chunks) && (u.dedup <==> cfg.publicKey == "")
    && u.manifest.id == Sha256Hex(crypto.digest, u.manifest.payload)
    && AllConsistent(net) && NothingEvicted(net, u.parcels, u.dedup) && RunUpload(net, u).1
  }

  // Chunk i is at t, as it should be.
  ghost predicate LeftThere(crypto: Crypto, cfg: Config, key: FileKey, chunks: seq<string>, net: Net, after: Net,
                            i: nat, t: Endpoint)
    requires key.Valid() && i < |chunks|
  {
    && t in net && t in after
    && LeftAt(crypto, cfg, key, chunks, Sha256Hex(crypto.digest, chunks[i]), net[t].store.files, after[t].store.files)
  }

  lemma UploadQualifies(crypto: Crypto, cfg: Config, key: FileKey, chunks: seq<string>, net: Net, u: Upload)
    requires Is256Bit(crypto.digest) && key.Valid() && cfg.peers != [] && WentThrough(crypto, cfg, key, chunks, net, u)
    ensures AllSendable(u.parcels) && SameTargets(u.parcels) && IsManifest(crypto, u.manifest)
  {
    SealedParcels(crypto, cfg, key, chunks);
    Sha256HexIsChunkId(crypto.digest, u.manifest.payload);
  }

  lemma TargetsAreReached(crypto: Crypto, net: Net, u: Upload, i: nat, t: Endpoint)
    requires AllSendable(u.parcels) && IsManifest(crypto, u.manifest) && i < |u.parcels| && t in u.parcels[i].targets
    requires AllConsistent(net) && NothingEvicted(net, u.parcels, u.dedup) && RunUpload(net, u).1
    ensures t in net && t in RunUpload(net, u).0
    ensures DeliverAll(net, u.parcels, u.dedup).1
    ensures t in DeliverAll(net, u.parcels, u.dedup).0
    ensures RunUpload(net, u).0[t].store == DeliverAll(net, u.parcels, u.dedup).0[t].store
  {
    UploadLeaves(crypto, net, u);
  }

  lemma SealedIsLeft(crypto: Crypto, cfg: Config, key: FileKey, chunks: seq<string>, net: Net, u: Upload, i: nat,
                     t: Endpoint)
    requires Is256Bit(crypto.digest) && key.Valid() && cfg.peers != [] && cfg.publicKey != ""
    requires WentThrough(crypto, cfg, key, chunks, net, u) && i < |chunks| && t in u.parcels[i].targets
    ensures LeftThere(crypto, cfg, key, chunks, net, RunUpload(net, u).0, i, t)
  {
    UploadQualifies(crypto, cfg, key, chunks, net, u);
    TargetsAreReached(crypto, net, u, i, t);
    UploadFinal(crypto, net, u, t, u.parcels[i].id);
    LastIsSealed(crypto, cfg, key, chunks, i, t, net[t].store.files, RunUpload(net, u).0[t].store.files);
  }

  lemma PlainIsLeft(crypto: Crypto, cfg: Config, key: FileKey, chunks: seq<string>, net: Net, u: Upload, i: nat,
                    t: Endpoint)
    requires Is256Bit(crypto.digest) && key.Valid() && cfg.peers != [] && cfg.publicKey == ""
    requires WentThrough(crypto, cfg, key, chunks, net, u) && i < |chunks| && t in u.parcels[i].targets
    ensures LeftThere(crypto, cfg, key, chunks, net, RunUpload(net, u).0, i, t)
  {
    UploadQualifies(crypto, cfg, key, chunks, net, u);
    TargetsAreReached(crypto, net, u, i, t);
    FirstDeliveryWins(net, u.parcels, t, u.parcels[i].id);
    FirstIsChunk(crypto, cfg, key, chunks, i, t, net[t].store.files, RunUpload(net, u).0[t].store.files);
  }

  // What a call of putFile is about, and that nothing it stores evicts anything.
  ghost predicate Undisturbed(crypto: Crypto, cfg: Config, net: Net, key: FileKey, name: string, content: string,
                              fates: Fates)
  {
    && Is256Bit(crypto.digest) && key.Valid() && cfg.chunkSize > 0
    && var u := UploadOf(crypto, cfg, key, name, content);
       AllConsistent(net) && NothingEvicted(net, u.parcels, u.dedup) && (cfg.publicKey == "" ==> AllHeard(fates))
  }

  /**
   * After a putFile that returned, whatever else went wrong, every target of every chunk holds under its hash the
   * ciphertext of the last chunk with that hash, if a public key is configured; and otherwise what it had held before,
   * or else the chunk itself.
   */
  lemma ReturnedPutFileLeaves(crypto: Crypto, cfg: Config, net: Net, key: FileKey, name: string, content: string,
                              fates: Fates, localCopy: bool)
    requires Undisturbed(crypto, cfg, net, key, name, content, fates)
    requires PutOutcome(crypto, cfg, net, key, name, content, fates, localCopy).Returned?
    ensures var chunks, after := Split(content, cfg.chunkSize), PeersAfter(crypto, cfg, net, key, name, content, fates);
      forall i, t | 0 <= i < |chunks| && t in UploadOf(crypto, cfg, key, name, content).parcels[i].targets ::
        LeftThere(crypto, cfg, key, chunks, net, after, i, t)
  {
    var u, chunks := UploadOf(crypto, cfg, key, name, content), Split(content, cfg.chunkSize);
    ReturnedUploadIsRunUpload(net, u, fates);
    assert WentThrough(crypto, cfg, key, chunks, net, u);
    forall i, t | 0 <= i < |chunks| && t in u.parcels[i].targets
      ensures LeftThere(crypto, cfg, key, chunks, net, RunUpload(net, u).0, i, t)
    {
      if cfg.publicKey == "" {
        PlainIsLeft(crypto, cfg, key, chunks, net, u, i, t);
      } else {
        SealedIsLeft(crypto, cfg, key, chunks, net, u, i, t);
      }
    }
  }

  /** The way back **/

  // By the share id that putFile returned, and by the manifest it left, getFile writes these bytes and returns.
  ghost predicate LeadsBack(crypto: Crypto, get: Config, result: PutResult, content: string, replies: Replies) {
    && result.Returned? && result.uri == "dss://file/" + Sha256Hex(crypto.digest, result.copy)
    && Fetch(crypto, get, result.uri, None, replies) == Wrote(content, true)
    && LocallyToo(crypto, get, result.copy, content, replies)
  }

  /**
   * Without a public key: if putFile has returned, over whatever failures, and evicted nothing, its share id and its
   * local manifest lead back to exactly the original bytes, despite fewer bad peers than targets.
   */
  lemma PlainResultLeadsBack(crypto: Crypto, put: Config, get: Config, net: Net, key: FileKey, name: string,
                             content: string, fates: Fates, localCopy: bool, bad: set<Endpoint>, replies: Replies)
    requires Is256Bit(crypto.digest) && key.Valid() && put.chunkSize > 0 && put.publicKey == "" && OneWord(name)
    requires PutOutcome(crypto, put, net, key, name, content, fates, localCopy).Returned? && SoundNet(crypto, net)
    requires var u := UploadOf(crypto, put, key, name, content);
      var after := PeersAfter(crypto, put, net, key, name, content, fates);
      && EvictsNothing(net, Client(u, put.Replicas(), Checking(0, 0, [])), fates)
      && FewBadFor(u, bad, get.peers) && Honest(after, bad, replies) && Sized(after)
      && NoCollisions(crypto, get.peers, Plain, Split(content, put.chunkSize), u.manifest.payload, replies)
    ensures LeadsBack(crypto, get, PutOutcome(crypto, put, net, key, name, content, fates, localCopy), content, replies)
  {
    ReturnedFileIsRetrieved(crypto, put, get, key, name, content, net, fates, bad, replies);
  }

  /** With a public key, to whoever has the private one, if no two chunks have the same hash. **/
  lemma SealedResultLeadsBack(crypto: Crypto, put: Config, get: Config, net: Net, key: FileKey, name: string,
                              content: string, fates: Fates, localCopy: bool, bad: set<Endpoint>, replies: Replies)
    requires put.publicKey != "" && OneWord(name) && Opens(crypto) && KeyPair(crypto, put, get)
    requires Undisturbed(crypto, put, net, key, name, content, fates)
    requires PutOutcome(crypto, put, net, key, name, content, fates, localCopy).Returned?
    requires Distinct(ChunkIds(crypto, Split(content, put.chunkSize)))
    requires var u := UploadOf(crypto, put, key, name, content);
      var after := PeersAfter(crypto, put, net, key, name, content, fates);
      && FewBadFor(u, bad, get.peers) && Honest(after, bad, replies) && Sized(after)
      && NoCollisions(crypto, get.peers, Keyed(key.key, key.iv), Split(content, put.chunkSize), u.manifest.payload,
                      replies)
    ensures LeadsBack(crypto, get, PutOutcome(crypto, put, net, key, name, content, fates, localCopy), content, replies)
  {
    ReturnedUploadIsRunUpload(net, UploadOf(crypto, put, key, name, content), fates);
    EncryptedRoundTrip.EncryptedRoundTrip(crypto, put, get, key, name, content, net, bad, replies);
  }

  /**
   * When putFile throws: without peers, with chunks of no size, when a chunk or the manifest does not get through, or,
   * with everything uploaded, when the local manifest cannot be written.
   */
  lemma ThrowsIff(crypto: Crypto, cfg: Config, net: Net, key: FileKey, name: string, content: string, fates: Fates,
                  localCopy: bool)
    requires key.Valid()
    ensures PutOutcome(crypto, cfg, net, key, name, content, fates, localCopy).Thrown?
       <==> || cfg.peers == [] || cfg.chunkSize == 0 || !localCopy
            || !UploadUnder(net, UploadOf(crypto, cfg, key, name, content), fates).1
    ensures cfg.peers == [] || cfg.chunkSize == 0 ==> PeersAfter(crypto, cfg, net, key, name, content, fates) == net
  {
  }
}
