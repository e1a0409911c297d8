/**
 * Encrypted uploads store each chunk under the hash of its plaintext but encipher it under a vector that depends on its
 * index, so that of two equal chunks only the later one's ciphertext is left.
 */
module EncryptedRoundTrip {
  import opened Basics
  import opened Store
  import opened Kademlia
  import opened Routing
  import opened Chunking
  import opened Manifest
  import opened Peers
  import opened Upload
  import opened Download
  import opened FileNames
  import opened RoundTrip
  import Framing

  // AES-GCM authenticates: what was sealed under one vector does not open under another.
  ghost predicate Authenticates(crypto: Crypto) {
    forall plain, key, iv, iv' | iv != iv' :: crypto.open(crypto.seal(plain, key, iv), key, iv') == None
  }

  // Parcels with the same id go to the same targets.
  ghost predicate SameTargets(parcels: seq<Parcel>) {
    forall i, j | 0 <= i < |parcels| && 0 <= j < |parcels| && parcels[i].id == parcels[j].id ::
      parcels[i].targets == parcels[j].targets
  }

  function LastWith(parcels: seq<Parcel>, id: string): (k: Option<nat>)
    ensures k.Some? ==> k.value < |parcels| && parcels[k.value].id == id
    ensures k.Some? ==> forall i | k.value < i < |parcels| :: parcels[i].id != id
    ensures k.None? ==> forall i | 0 <= i < |parcels| :: parcels[i].id != id
  {
    if parcels == [] then None
    else
      match LastWith(parcels[1..], id)
      case Some(k) => Some(k + 1)
      case None => if parcels[0].id == id then Some(0) else None
  }

  ghost predicate SameFile(was: map<string, string>, now: map<string, string>, id: string) {
    (id in now <==> id in was) && (id in now ==> now[id] == was[id])
  }

  // What a peer q has under id once a parcel has been sent to its targets.
  ghost predicate Delivered(was: map<string, string>, now: map<string, string>, p: Parcel, q: Endpoint, id: string) {
    if id == p.id && q in p.targets then id in now && now[id] == p.payload else SameFile(was, now, id)
  }

  // What it has when all have been.
  ghost predicate Final(was: map<string, string>, now: map<string, string>, parcels: seq<Parcel>, q: Endpoint,
                        id: string)
  {
    var k := LastWith(parcels, id);
    if k.Some? && q in parcels[k.value].targets then id in now && now[id] == parcels[k.value].payload
    else SameFile(was, now, id)
  }

  ghost predicate FinalAt(before: Net, after: Net, parcels: seq<Parcel>, q: Endpoint, id: string)
    requires q in before && q in after
  {
    Final(before[q].store.files, after[q].store.files, parcels, q, id)
  }

  lemma OneDelivery(net: Net, net': Net, p: Parcel, q: Endpoint, id: string)
    requires DeliveredTo(net, net', p, p.targets) && q in net
    ensures q in net' && Delivered(net[q].store.files, net'[q].store.files, p, q, id)
  {
    if q in p.targets {
      assert StoredAt(net[q], net'[q], p.id, p.payload);
    }
  }

  lemma FirstThenRest(was: map<string, string>, mid: map<string, string>, now: map<string, string>,
                      parcels: seq<Parcel>, q: Endpoint, id: string)
    requires parcels != [] && SameTargets(parcels)
    requires Delivered(was, mid, parcels[0], q, id) && Final(mid, now, parcels[1..], q, id)
    ensures Final(was, now, parcels, q, id)
  {
    var k := LastWith(parcels[1..], id);
    if k.Some? {
      assert parcels[k.value + 1] == parcels[1..][k.value];
    }
  }

  /** Sent to every target, the last parcel with an id is what its targets hold, and others hold what they did. **/
  lemma {:induction false} LastDeliveryWins(net: Net, parcels: seq<Parcel>, q: Endpoint, id: string)
    requires AllSendable(parcels) && SameTargets(parcels)
    requires AllConsistent(net) && NothingEvicted(net, parcels, false) && DeliverAll(net, parcels, false).1 && q in net
    ensures q in DeliverAll(net, parcels, false).0
    ensures FinalAt(net, DeliverAll(net, parcels, false).0, parcels, q, id)
  {
    if parcels != [] {
      var p, rest := parcels[0], parcels[1..];
      FirstDelivery(net, parcels, false);
      var mid := Deliver(net, p, false).0;
      OneDelivery(net, mid, p, q, id);
      RestIsSendable(parcels);
      LastDeliveryWins(mid, rest, q, id);
      var net' := DeliverAll(mid, rest, false).0;
      FirstThenRest(net[q].store.files, mid[q].store.files, net'[q].store.files, parcels, q, id);
    }
  }

  lemma RestIsSendable(parcels: seq<Parcel>)
    requires parcels != [] && AllSendable(parcels) && SameTargets(parcels)
    ensures Sendable(parcels[0]) && AllSendable(parcels[1..]) && SameTargets(parcels[1..])
  {
    var rest := parcels[1..];
    forall i, j | 0 <= i < |rest| && 0 <= j < |rest| && rest[i].id == rest[j].id
      ensures rest[i].targets == rest[j].targets
    {
      assert rest[i] == parcels[i + 1] && rest[j] == parcels[j + 1];
    }
  }

  /** The parcels of an encrypted upload **/

  lemma SealedParcels(crypto: Crypto, put: Config, key: FileKey, chunks: seq<string>)
    requires Is256Bit(crypto.digest) && key.Valid() && put.peers != []
    ensures AllSendable(Parcels(crypto, put, key, chunks)) && SameTargets(Parcels(crypto, put, key, chunks))
  {
    forall i | 0 <= i < |chunks| ensures Sendable(Parcels(crypto, put, key, chunks)[i]) {
      ChunkParcelIsSendable(crypto, put, key, chunks[i], i);
    }
  }

  lemma SealedOpens(crypto: Crypto, put: Config, key: FileKey, chunk: string, i: nat)
    requires put.Encrypts() && key.Valid() && Opens(crypto)
    ensures Opened(crypto, Keyed(key.key, key.iv), Payload(crypto, put, key, chunk, i), i) == Some(chunk)
  {
    assert DeriveIv(key.iv, i).Some?;
    var iv := DeriveIv(key.iv, i).value;
    assert crypto.open(crypto.seal(chunk, key.key, iv), key.key, iv) == Some(chunk);
  }

  lemma SealedElsewhereDoesNotOpen(crypto: Crypto, put: Config, key: FileKey, chunk: string, i: nat, j: nat)
    requires put.Encrypts() && key.Valid() && Authenticates(crypto)
    requires i < COUNTER_LIMIT && j < COUNTER_LIMIT && i != j
    ensures Opened(crypto, Keyed(key.key, key.iv), Payload(crypto, put, key, chunk, j), i) == None
  {
    SameIvIff(key.iv, i, j);
    assert DeriveIv(key.iv, i).Some? && DeriveIv(key.iv, j).Some?;
    var iv, iv' := DeriveIv(key.iv, j).value, DeriveIv(key.iv, i).value;
    assert iv != iv';
    assert crypto.open(crypto.seal(chunk, key.key, iv), key.key, iv') == None;
  }

  // Each target outside bad of each parcel holds that parcel's ciphertext.
  ghost predicate ExactlyHeld(crypto: Crypto, net: Net, u: Upload, bad: set<Endpoint>) {
    && ManifestOnTargets(crypto, net, u.manifest, bad)
    && forall i, t | 0 <= i < |u.parcels| && t in u.parcels[i].targets && t !in bad ::
         && t in net && u.parcels[i].id in net[t].store.files
         && net[t].store.files[u.parcels[i].id] == u.parcels[i].payload
  }

  ghost predicate DistinctIds(parcels: seq<Parcel>) {
    forall i, j | 0 <= i < j < |parcels| :: parcels[i].id != parcels[j].id
  }

  lemma UploadFinal(crypto: Crypto, net: Net, u: Upload, q: Endpoint, id: string)
    requires AllSendable(u.parcels) && SameTargets(u.parcels) && !u.dedup && IsManifest(crypto, u.manifest)
    requires AllConsistent(net) && NothingEvicted(net, u.parcels, u.dedup) && RunUpload(net, u).1 && q in net
    ensures q in RunUpload(net, u).0 && RunUpload(net, u).0.Keys == net.Keys
    ensures FinalAt(net, RunUpload(net, u).0, u.parcels, q, id)
  {
    UploadLeaves(crypto, net, u);
    LastDeliveryWins(net, u.parcels, q, id);
    assert RunUpload(net, u).0[q].store == DeliverAll(net, u.parcels, false).0[q].store;
  }

  lemma DistinctHaveSameTargets(parcels: seq<Parcel>)
    requires DistinctIds(parcels)
    ensures SameTargets(parcels)
  {
  }

  lemma LastOfDistinct(parcels: seq<Parcel>, i: nat)
    requires DistinctIds(parcels) && i < |parcels|
    ensures LastWith(parcels, parcels[i].id) == Some(i)
  {
  }

  lemma DistinctUploadIsHeld(crypto: Crypto, net: Net, u: Upload)
    requires AllSendable(u.parcels) && DistinctIds(u.parcels) && !u.dedup && IsManifest(crypto, u.manifest)
    requires AllConsistent(net) && NothingEvicted(net, u.parcels, u.dedup) && RunUpload(net, u).1
    ensures ExactlyHeld(crypto, RunUpload(net, u).0, u, {})
  {
    UploadLeaves(crypto, net, u);
    var net' := RunUpload(net, u).0;
    DistinctHaveSameTargets(u.parcels);
    forall i, t | 0 <= i < |u.parcels| && t in u.parcels[i].targets
      ensures t in net' && u.parcels[i].id in net'[t].store.files
      ensures net'[t].store.files[u.parcels[i].id] == u.parcels[i].payload
    {
      assert t in net;
      UploadFinal(crypto, net, u, t, u.parcels[i].id);
      LastOfDistinct(u.parcels, i);
    }
  }

  lemma SealedUploadIsHeld(crypto: Crypto, put: Config, key: FileKey, chunks: seq<string>, net: Net, u: Upload)
    requires Is256Bit(crypto.digest) && key.Valid() && put.peers != [] && Distinct(ChunkIds(crypto, chunks))
    requires u.parcels == Parcels(crypto, put, key, chunks) && !u.dedup
    requires u.manifest.id == Sha256Hex(crypto.digest, u.manifest.payload)
    requires AllConsistent(net) && NothingEvicted(net, u.parcels, u.dedup) && RunUpload(net, u).1
    ensures ExactlyHeld(crypto, RunUpload(net, u).0, u, {})
  {
    SealedParcels(crypto, put, key, chunks);
    Sha256HexIsChunkId(crypto.digest, u.manifest.payload);
    assert forall i | 0 <= i < |chunks| :: u.parcels[i].id == ChunkIds(crypto, chunks)[i];
    DistinctUploadIsHeld(crypto, net, u);
  }

  lemma ParcelIsHeld(crypto: Crypto, net: Net, u: Upload, bad: set<Endpoint>, i: nat, t: Endpoint)
    requires ExactlyHeld(crypto, net, u, bad) && i < |u.parcels| && t in u.parcels[i].targets && t !in bad
    ensures t in net && u.parcels[i].id in net[t].store.files
    ensures net[t].store.files[u.parcels[i].id] == u.parcels[i].payload
  {
  }

  lemma SealedServes(crypto: Crypto, put: Config, key: FileKey, chunks: seq<string>, net: Net, u: Upload,
                     bad: set<Endpoint>, i: nat, t: Endpoint)
    requires put.Encrypts() && key.Valid() && Opens(crypto) && u.parcels == Parcels(crypto, put, key, chunks)
    requires ExactlyHeld(crypto, net, u, bad) && i < |chunks| && t in u.parcels[i].targets && t !in bad
    ensures ServesRight(crypto, Keyed(key.key, key.iv), net, t, i, u.parcels[i].id)
  {
    ParcelIsHeld(crypto, net, u, bad, i, t);
    SealedOpens(crypto, put, key, chunks[i], i);
  }

  // The ciphertexts are held whenever any of the peers is asked for any of them.
  ghost predicate CipherHeldThroughout(crypto: Crypto, at: Moments, u: Upload, bad: set<Endpoint>) {
    forall ask, p :: ExactlyHeld(crypto, at(ask, p), u, bad) && Sized(at(ask, p))
  }

  lemma CipherIsOffered(crypto: Crypto, put: Config, key: FileKey, chunks: seq<string>, u: Upload, at: Moments,
                        bad: set<Endpoint>, replies: Replies)
    requires put.Encrypts() && key.Valid() && Opens(crypto) && u.parcels == Parcels(crypto, put, key, chunks)
    requires CipherHeldThroughout(crypto, at, u, bad) && HonestAt(at, bad, replies)
    ensures GoodOffers(crypto, u, Keyed(key.key, key.iv), bad, replies)
  {
    forall t | t in u.manifest.targets && t !in bad ensures SendsManifest(crypto, replies, t, u.manifest.id) {
      var net := at(ForManifest(u.manifest.id), t);
      assert ExactlyHeld(crypto, net, u, bad) && Sized(net);
      GoodTargetOffersManifest(crypto, net, bad, replies, t, u.manifest);
    }
    forall i, t | 0 <= i < |u.parcels| && t in u.parcels[i].targets && t !in bad
      ensures ChunkOffers(crypto, Keyed(key.key, key.iv), i, u.parcels[i].id, replies)(t).Some?
    {
      var net := at(ForChunk(i, u.parcels[i].id), t);
      assert ExactlyHeld(crypto, net, u, bad) && Sized(net);
      SealedServes(crypto, put, key, chunks, net, u, bad, i, t);
      GoodTargetOffersChunk(crypto, net, replies, Keyed(key.key, key.iv), t, i, u.parcels[i].id);
    }
  }

  /**
   * While every target holds every chunk's own ciphertext, the getter with the private key gets the original bytes,
   * despite fewer bad peers than targets, and although the peers' other contents may change meanwhile.
   */
  lemma HeldCipherIsRetrieved(crypto: Crypto, put: Config, get: Config, key: FileKey, name: string, content: string,
                              at: Moments, bad: set<Endpoint>, replies: Replies)
    requires Is256Bit(crypto.digest) && key.Valid() && put.chunkSize > 0 && put.Encrypts() && OneWord(name)
    requires Opens(crypto) && KeyPair(crypto, put, get)
    requires var u := UploadOf(crypto, put, key, name, content);
      && CipherHeldThroughout(crypto, at, u, bad) && FewBadFor(u, bad, get.peers) && HonestAt(at, bad, replies)
      && NoCollisions(crypto, get.peers, Keyed(key.key, key.iv), Split(content, put.chunkSize), u.manifest.payload,
                      replies)
    ensures Fetch(crypto, get, SHARE_PREFIX + UploadOf(crypto, put, key, name, content).manifest.id, None, replies)
         == Wrote(content, true)
    ensures LocallyToo(crypto, get, UploadOf(crypto, put, key, name, content).manifest.payload, content, replies)
  {
    var u := UploadOf(crypto, put, key, name, content);
    var chunks := Split(content, put.chunkSize);
    UploadDescribes(crypto, put, get, key, name, content);
    AccessOfUpload(crypto, put, get, key, Word(name), content);
    CipherIsOffered(crypto, put, key, chunks, u, at, bad, replies);
    FetchFromTargets(crypto, get, u, chunks, ManifestOf(crypto, put, key, Word(name), content), bad, replies);
    SplitIs(content, put.chunkSize);
  }

  /** Put, then get: the encrypted round trip, despite fewer bad peers than targets. **/
  lemma EncryptedRoundTrip(crypto: Crypto, put: Config, get: Config, key: FileKey, name: string, content: string,
                           net: Net, bad: set<Endpoint>, replies: Replies)
    requires Is256Bit(crypto.digest) && key.Valid() && put.peers != [] && put.chunkSize > 0 && put.Encrypts()
    requires OneWord(name) && Opens(crypto) && KeyPair(crypto, put, get)
    requires Distinct(ChunkIds(crypto, Split(content, put.chunkSize)))
    requires var u := UploadOf(crypto, put, key, name, content);
      && AllConsistent(net) && NothingEvicted(net, u.parcels, u.dedup) && RunUpload(net, u).1
      && FewBadFor(u, bad, get.peers)
      && Honest(RunUpload(net, u).0, bad, replies) && Sized(RunUpload(net, u).0)
      && NoCollisions(crypto, get.peers, Keyed(key.key, key.iv), Split(content, put.chunkSize), u.manifest.payload,
                      replies)
    ensures var u := UploadOf(crypto, put, key, name, content);
      && Fetch(crypto, get, SHARE_PREFIX + u.manifest.id, None, replies) == Wrote(content, true)
      && LocallyToo(crypto, get, u.manifest.payload, content, replies)
  {
    var u := UploadOf(crypto, put, key, name, content);
    var chunks := Split(content, put.chunkSize);
    SealedUploadIsHeld(crypto, put, key, chunks, net, u);
    assert ExactlyHeld(crypto, RunUpload(net, u).0, u, bad);
    HeldCipherIsRetrieved(crypto, put, get, key, name, content, Always(RunUpload(net, u).0), bad, replies);
  }

  /** When a chunk occurs twice **/

  // No reachable peer has anything under these ids.
  ghost predicate Unstored(net: Net, parcels: seq<Parcel>) {
    forall q, i | q in net && 0 <= i < |parcels| :: parcels[i].id !in net[q].store.files
  }

  lemma SupersededIsRefused(crypto: Crypto, put: Config, key: FileKey, chunks: seq<string>, net: Net, net': Net,
                            q: Endpoint, i: nat, j: nat, replies: Replies)
    requires put.Encrypts() && key.Valid() && Authenticates(crypto) && |chunks| <= COUNTER_LIMIT
    requires i < j < |chunks| && ChunkId(crypto, chunks[i]) == ChunkId(crypto, chunks[j])
    requires q in net && q in net' && Unstored(net, Parcels(crypto, put, key, chunks))
    requires FinalAt(net, net', Parcels(crypto, put, key, chunks), q, ChunkId(crypto, chunks[i]))
    requires Honest(net', {}, replies) && Sized(net')
    ensures ChunkOffers(crypto, Keyed(key.key, key.iv), i, ChunkId(crypto, chunks[i]), replies)(q) == None
  {
    var parcels := Parcels(crypto, put, key, chunks);
    var id := ChunkId(crypto, chunks[i]);
    var ask := ForChunk(i, id);
    assert parcels[i].id == id && parcels[j].id == id;
    var k := LastWith(parcels, id).value;
    assert k >= j;
    assert replies(ask, q) == Some(PeerReply(net'[q], RequestFor(ask), Complete));
    if id in net'[q].store.files {
      assert net'[q].store.files[id] == parcels[k].payload;
      SealedElsewhereDoesNotOpen(crypto, put, key, chunks[k], i, k);
      DataReplyRead(parcels[k].payload);
    } else {
      Framing.ErrIsNoData();
    }
  }

  /** An earlier one of two equal chunks is lost: nobody's bytes for it are accepted, and getFile throws. **/
  lemma RepeatedChunkIsLost(crypto: Crypto, put: Config, get: Config, key: FileKey, m: Manifest, chunks: seq<string>,
                            net: Net, net': Net, i: nat, j: nat, ref: string, replies: Replies)
    requires put.Encrypts() && key.Valid() && Authenticates(crypto) && |chunks| <= COUNTER_LIMIT
    requires i < j < |chunks| && ChunkId(crypto, chunks[i]) == ChunkId(crypto, chunks[j])
    requires Unstored(net, Parcels(crypto, put, key, chunks)) && net'.Keys == net.Keys
    requires forall q | q in net :: FinalAt(net, net', Parcels(crypto, put, key, chunks), q, ChunkId(crypto, chunks[i]))
    requires Honest(net', {}, replies) && Sized(net') && forall p | p in get.peers :: p in net
    requires m.chunks == ChunkIds(crypto, chunks) && AccessTo(crypto, get, m) == Keyed(key.key, key.iv)
    requires get.peers != [] && FetchManifest(crypto, get, ref, None, replies) == Some(m)
    ensures Fetch(crypto, get, ref, None, replies).Wrote? && !Fetch(crypto, get, ref, None, replies).complete
  {
    forall p | p in get.peers
      ensures ChunkOffers(crypto, Keyed(key.key, key.iv), i, m.chunks[i], replies)(p) == None
    {
      SupersededIsRefused(crypto, put, key, chunks, net, net', p, i, j, replies);
    }
    UnofferedChunkFails(crypto, get, m, Keyed(key.key, key.iv), i, ref, replies);
  }

  /** The exact condition **/

  // An encrypted upload to peers that have none of its ids, and a getter who knows them.
  ghost predicate CleanUpload(crypto: Crypto, put: Config, get: Config, key: FileKey, name: string, content: string,
                              net: Net)
  {
    && Is256Bit(crypto.digest) && Opens(crypto) && Authenticates(crypto) && KeyPair(crypto, put, get)
    && key.Valid() && put.peers != [] && put.chunkSize > 0 && put.Encrypts() && OneWord(name)
    && var u := UploadOf(crypto, put, key, name, content);
       && |u.parcels| <= COUNTER_LIMIT
       && AllConsistent(net) && NothingEvicted(net, u.parcels, false) && Unstored(net, u.parcels) && RunUpload(net, u).1
       && FewBadFor(u, {}, get.peers) && (forall p | p in get.peers :: p in net)
  }

  // All of them honest, afterwards, and no collisions.
  ghost predicate CleanReplies(crypto: Crypto, put: Config, get: Config, key: FileKey, name: string, content: string,
                               net: Net, replies: Replies)
  {
    && key.Valid() && put.chunkSize > 0
    && var u := UploadOf(crypto, put, key, name, content);
       var net' := RunUpload(net, u).0;
       && Honest(net', {}, replies) && Sized(net')
       && NoCollisions(crypto, get.peers, Keyed(key.key, key.iv), Split(content, put.chunkSize), u.manifest.payload,
                       replies)
  }

  ghost predicate CleanExchange(crypto: Crypto, put: Config, get: Config, key: FileKey, name: string, content: string,
                                net: Net, replies: Replies)
  {
    && CleanUpload(crypto, put, get, key, name, content, net)
    && CleanReplies(crypto, put, get, key, name, content, net, replies)
  }

  lemma ManifestIsFetched(crypto: Crypto, put: Config, get: Config, key: FileKey, name: string, content: string,
                          net: Net, replies: Replies)
    requires CleanExchange(crypto, put, get, key, name, content, net, replies)
    ensures var u := UploadOf(crypto, put, key, name, content);
      && get.peers != []
      && FetchManifest(crypto, get, SHARE_PREFIX + u.manifest.id, None, replies)
         == Some(ManifestOf(crypto, put, key, Word(name), content))
  {
    var u := UploadOf(crypto, put, key, name, content);
    var chunks, m := Split(content, put.chunkSize), ManifestOf(crypto, put, key, Word(name), content);
    UploadDescribes(crypto, put, get, key, name, content);
    SealedParcels(crypto, put, key, chunks);
    Sha256HexIsChunkId(crypto.digest, u.manifest.payload);
    UploadLeaves(crypto, net, u);
    ManifestFound(crypto, get, u, chunks, m, RunUpload(net, u).0, Keyed(key.key, key.iv), replies);
  }

  lemma ManifestFound(crypto: Crypto, get: Config, u: Upload, chunks: seq<string>, m: Manifest, net: Net,
                      access: Access, replies: Replies)
    requires Describes(crypto, u, chunks, m) && ManifestOnTargets(crypto, net, u.manifest, {})
    requires FewBad(u.manifest, {}, get.peers) && Honest(net, {}, replies) && Sized(net)
    requires NoCollisions(crypto, get.peers, access, chunks, u.manifest.payload, replies)
    ensures get.peers != [] && FetchManifest(crypto, get, SHARE_PREFIX + u.manifest.id, None, replies) == Some(m)
  {
    forall t | t in u.manifest.targets ensures SendsManifest(crypto, replies, t, u.manifest.id) {
      assert t in Always(net)(ForManifest(u.manifest.id), t);
      GoodTargetOffersManifest(crypto, net, {}, replies, t, u.manifest);
    }
    ManifestOffered(crypto, u, chunks, m, {}, get.peers, access, replies);
    var ref := SHARE_PREFIX + u.manifest.id;
    assert ref[|SHARE_PREFIX|..] == u.manifest.id;
    OfferedIsFound(crypto, get, "manifest:" + u.manifest.id, ManifestOffers(crypto, u.manifest.id, replies), m);
  }

  lemma RepeatedChunkBreaksRoundTrip(crypto: Crypto, put: Config, get: Config, key: FileKey, name: string,
                                     content: string, net: Net, replies: Replies, i: nat, j: nat)
    requires CleanExchange(crypto, put, get, key, name, content, net, replies)
    requires i < j < |Split(content, put.chunkSize)|
    requires ChunkId(crypto, Split(content, put.chunkSize)[i]) == ChunkId(crypto, Split(content, put.chunkSize)[j])
    ensures var id := UploadOf(crypto, put, key, name, content).manifest.id;
      var r := Fetch(crypto, get, SHARE_PREFIX + id, None, replies);
      r.Wrote? && !r.complete
  {
    var u := UploadOf(crypto, put, key, name, content);
    var chunks, m := Split(content, put.chunkSize), ManifestOf(crypto, put, key, Word(name), content);
    SealedParcels(crypto, put, key, chunks);
    Sha256HexIsChunkId(crypto.digest, u.manifest.payload);
    forall q | q in net
      ensures q in RunUpload(net, u).0 && RunUpload(net, u).0.Keys == net.Keys
      ensures FinalAt(net, RunUpload(net, u).0, u.parcels, q, ChunkId(crypto, chunks[i]))
    {
      UploadFinal(crypto, net, u, q, ChunkId(crypto, chunks[i]));
    }
    UploadLeaves(crypto, net, u);
    ManifestIsFetched(crypto, put, get, key, name, content, net, replies);
    AccessOfUpload(crypto, put, get, key, Word(name), content);
    RepeatedChunkIsLost(crypto, put, get, key, m, chunks, net, RunUpload(net, u).0, i, j,
                        SHARE_PREFIX + u.manifest.id, replies);
  }

  /**
   * With every peer honest and nothing else going on, an encrypted file comes back if and only if no two of its chunks
   * have the same hash; otherwise getFile throws on the way.
   */
  lemma EncryptedRoundTripIff(crypto: Crypto, put: Config, get: Config, key: FileKey, name: string, content: string,
                              net: Net, replies: Replies)
    requires CleanExchange(crypto, put, get, key, name, content, net, replies)
    ensures var u := UploadOf(crypto, put, key, name, content);
      var r := Fetch(crypto, get, SHARE_PREFIX + u.manifest.id, None, replies);
      && r.Wrote?
      && (r == Wrote(content, true) <==> Distinct(ChunkIds(crypto, Split(content, put.chunkSize))))
      && (r.complete <==> r == Wrote(content, true))
  {
    if Distinct(ChunkIds(crypto, Split(content, put.chunkSize))) {
      EncryptedRoundTrip(crypto, put, get, key, name, content, net, {}, replies);
    } else {
      RepeatedIdBreaksRoundTrip(crypto, put, get, key, name, content, net, replies);
    }
  }

  lemma RepeatedIdBreaksRoundTrip(crypto: Crypto, put: Config, get: Config, key: FileKey, name: string,
                                  content: string, net: Net, replies: Replies)
    requires CleanExchange(crypto, put, get, key, name, content, net, replies)
    requires !Distinct(ChunkIds(crypto, Split(content, put.chunkSize)))
    ensures var id := UploadOf(crypto, put, key, name, content).manifest.id;
      var r := Fetch(crypto, get, SHARE_PREFIX + id, None, replies);
      r.Wrote? && !r.complete
  {
    var i, j := RepeatedId(crypto, Split(content, put.chunkSize));
    RepeatedChunkBreaksRoundTrip(crypto, put, get, key, name, content, net, replies, i, j);
  }

  lemma RepeatedId(crypto: Crypto, chunks: seq<string>) returns (i: nat, j: nat)
    requires !Distinct(ChunkIds(crypto, chunks))
    ensures i < j < |chunks| && ChunkId(crypto, chunks[i]) == ChunkId(crypto, chunks[j])
  {
    var ids := ChunkIds(crypto, chunks);
    i, j :| 0 <= i < j < |ids| && ids[i] == ids[j];
  }
}
