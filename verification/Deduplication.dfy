/**
 * A whole plaintext upload, deduplicated: what it leaves at each peer, when that is what sending everything would have
 * left, and exactly when the file can then be had.
 */
module Deduplication {
  import opened Basics
  import opened Store
  import opened Kademlia
  import opened Routing
  import opened Chunking
  import opened Manifest
  import opened Peers
  import opened Upload
  import opened Download
  import opened FileNames
  import opened RoundTrip
  import opened EncryptedRoundTrip
  import Framing

  // The first parcel with this id that is for q.
  function FirstFor(parcels: seq<Parcel>, id: string, q: Endpoint): (k: Option<nat>)
    ensures k.Some? ==> k.value < |parcels| && parcels[k.value].id == id && q in parcels[k.value].targets
    ensures k.None? ==> forall i | 0 <= i < |parcels| :: !(parcels[i].id == id && q in parcels[i].targets)
  {
    if parcels == [] then None
    else if parcels[0].id == id && q in parcels[0].targets then Some(0)
    else
      match FirstFor(parcels[1..], id, q)
      case Some(k) => Some(k + 1)
      case None => None
  }

  // What q has under id once everything has been delivered to those that lacked it.
  ghost predicate FirstKept(was: map<string, string>, now: map<string, string>, parcels: seq<Parcel>, q: Endpoint,
                            id: string)
  {
    var k := FirstFor(parcels, id, q);
    if id !in was && k.Some? then id in now && now[id] == parcels[k.value].payload else SameFile(was, now, id)
  }

  lemma OneDeduplicated(net: Net, net': Net, p: Parcel, q: Endpoint, id: string)
    requires Reachable(net, p.targets) && AllConsistent(net) && q in net
    requires DeliveredTo(net, net', p, Missing(net, p.targets, p.id))
    ensures FirstKept(net[q].store.files, net'[q].store.files, [p], q, id)
  {
    StoresAgree(net, q);
    if q in Missing(net, p.targets, p.id) {
      assert StoredAt(net[q], net'[q], p.id, p.payload);
    }
    assert FirstFor([p], id, q) == if p.id == id && q in p.targets then Some(0) else None;
  }

  lemma FirstKeptThenRest(was: map<string, string>, mid: map<string, string>, now: map<string, string>,
                          parcels: seq<Parcel>, q: Endpoint, id: string)
    requires parcels != []
    requires FirstKept(was, mid, [parcels[0]], q, id) && FirstKept(mid, now, parcels[1..], q, id)
    ensures FirstKept(was, now, parcels, q, id)
  {
    assert FirstFor([parcels[0]], id, q) == if parcels[0].id == id && q in parcels[0].targets then Some(0) else None;
  }

  /** Sent to those that lack it, the first parcel with an id is what a target keeps unless it had something before. **/
  lemma {:induction false} FirstDeliveryWins(net: Net, parcels: seq<Parcel>, q: Endpoint, id: string)
    requires AllSendable(parcels) && AllConsistent(net) && NothingEvicted(net, parcels, true)
    requires DeliverAll(net, parcels, true).1 && q in net
    ensures q in DeliverAll(net, parcels, true).0
    ensures FirstKept(net[q].store.files, DeliverAll(net, parcels, true).0[q].store.files, parcels, q, id)
  {
    if parcels != [] {
      FirstDelivery(net, parcels, true);
      var mid := Deliver(net, parcels[0], true).0;
      OneDeduplicated(net, mid, parcels[0], q, id);
      FirstDeliveryWins(mid, parcels[1..], q, id);
      FirstKeptThenRest(net[q].store.files, mid[q].store.files,
                        DeliverAll(mid, parcels[1..], true).0[q].store.files, parcels, q, id);
    }
  }

  /** Against sending everything **/

  // Parcels with the same id carry the same bytes.
  ghost predicate SamePayloads(parcels: seq<Parcel>) {
    forall i, j | 0 <= i < |parcels| && 0 <= j < |parcels| && parcels[i].id == parcels[j].id ::
      parcels[i].payload == parcels[j].payload
  }

  // No target of a parcel has other bytes under its id.
  ghost predicate NoForeignBytes(net: Net, parcels: seq<Parcel>) {
    forall i, t | 0 <= i < |parcels| && t in parcels[i].targets && t in net
                  && parcels[i].id in net[t].store.files ::
      net[t].store.files[parcels[i].id] == parcels[i].payload
  }

  // At q, under id.
  ghost predicate NoneForeign(was: map<string, string>, parcels: seq<Parcel>, q: Endpoint, id: string) {
    id in was ==>
      forall i | 0 <= i < |parcels| && parcels[i].id == id && q in parcels[i].targets :: was[id] == parcels[i].payload
  }

  lemma SameAtIff(was: map<string, string>, some: map<string, string>, all: map<string, string>, parcels: seq<Parcel>,
                  q: Endpoint, id: string)
    requires SameTargets(parcels) && SamePayloads(parcels)
    requires FirstKept(was, some, parcels, q, id) && Final(was, all, parcels, q, id)
    ensures SameFile(some, all, id) <==> NoneForeign(was, parcels, q, id)
  {
    var first, last := FirstFor(parcels, id, q), LastWith(parcels, id);
    if first.Some? {
      assert parcels[first.value].id == id && last.Some?;
      assert parcels[first.value].payload == parcels[last.value].payload;
      assert q in parcels[last.value].targets;
    } else if last.Some? {
      assert q !in parcels[last.value].targets;
    }
  }

  lemma SameFilesIff(m: map<string, string>, n: map<string, string>)
    ensures m == n <==> forall id :: SameFile(m, n, id)
  {
    if forall id :: SameFile(m, n, id) {
      forall id ensures id in m <==> id in n {
        assert SameFile(m, n, id);
      }
      forall id | id in m ensures m[id] == n[id] {
        assert SameFile(m, n, id);
      }
    }
  }

  lemma SamePeerIff(net: Net, parcels: seq<Parcel>, q: Endpoint)
    requires AllSendable(parcels) && SameTargets(parcels) && SamePayloads(parcels) && AllConsistent(net) && q in net
    requires NothingEvicted(net, parcels, true) && DeliverAll(net, parcels, true).1
    requires NothingEvicted(net, parcels, false) && DeliverAll(net, parcels, false).1
    ensures q in DeliverAll(net, parcels, true).0 && q in DeliverAll(net, parcels, false).0
    ensures DeliverAll(net, parcels, true).0[q].store.files == DeliverAll(net, parcels, false).0[q].store.files
       <==> forall id :: NoneForeign(net[q].store.files, parcels, q, id)
  {
    DeliverAllIs(net, parcels, true);
    DeliverAllIs(net, parcels, false);
    var some, all := DeliverAll(net, parcels, true).0[q].store.files, DeliverAll(net, parcels, false).0[q].store.files;
    SameFilesIff(some, all);
    forall id ensures SameFile(some, all, id) <==> NoneForeign(net[q].store.files, parcels, q, id) {
      FirstDeliveryWins(net, parcels, q, id);
      LastDeliveryWins(net, parcels, q, id);
      SameAtIff(net[q].store.files, some, all, parcels, q, id);
    }
  }

  /**
   * A whole deduplicated upload leaves every peer with the files that sending every chunk to every target would have
   * left, if and only if no target had other bytes under a chunk's id.
   */
  lemma DedupEqualsFullUploadIff(net: Net, parcels: seq<Parcel>)
    requires AllSendable(parcels) && SameTargets(parcels) && SamePayloads(parcels) && AllConsistent(net)
    requires NothingEvicted(net, parcels, true) && DeliverAll(net, parcels, true).1
    requires NothingEvicted(net, parcels, false) && DeliverAll(net, parcels, false).1
    ensures FilesOf(DeliverAll(net, parcels, true).0) == FilesOf(DeliverAll(net, parcels, false).0)
       <==> NoForeignBytes(net, parcels)
  {
    var some, all := DeliverAll(net, parcels, true).0, DeliverAll(net, parcels, false).0;
    DeliverAllIs(net, parcels, true);
    DeliverAllIs(net, parcels, false);
    forall q | q in net
      ensures some[q].store.files == all[q].store.files
         <==> forall id :: NoneForeign(net[q].store.files, parcels, q, id)
    {
      SamePeerIff(net, parcels, q);
    }
    FilesOfIff(some, all);
    ForeignIff(net, parcels);
  }

  lemma FilesOfIff(some: Net, all: Net)
    requires some.Keys == all.Keys
    ensures FilesOf(some) == FilesOf(all) <==> forall q | q in some :: some[q].store.files == all[q].store.files
  {
    SameMap(FilesOf(some), FilesOf(all));
    if FilesOf(some) == FilesOf(all) {
      forall q | q in some ensures some[q].store.files == all[q].store.files {
        assert FilesOf(some)[q] == FilesOf(all)[q];
      }
    }
  }

  lemma ForeignIff(net: Net, parcels: seq<Parcel>)
    ensures NoForeignBytes(net, parcels) <==> forall q, id | q in net :: NoneForeign(net[q].store.files, parcels, q, id)
  {
    if forall q, id | q in net :: NoneForeign(net[q].store.files, parcels, q, id) {
      forall i, t | 0 <= i < |parcels| && t in parcels[i].targets && t in net && parcels[i].id in net[t].store.files
        ensures net[t].store.files[parcels[i].id] == parcels[i].payload
      {
        assert NoneForeign(net[t].store.files, parcels, t, parcels[i].id);
      }
    }
  }

  // A plaintext upload whose different chunks have different hashes is one the above is about.
  lemma PlainUploadQualifies(crypto: Crypto, put: Config, key: FileKey, chunks: seq<string>)
    requires Is256Bit(crypto.digest) && key.Valid() && put.peers != [] && !put.Encrypts()
    requires forall i, j | 0 <= i < |chunks| && 0 <= j < |chunks| ::
               ChunkId(crypto, chunks[i]) == ChunkId(crypto, chunks[j]) ==> chunks[i] == chunks[j]
    ensures var parcels := Parcels(crypto, put, key, chunks);
      AllSendable(parcels) && SameTargets(parcels) && SamePayloads(parcels)
  {
    PlainParcels(crypto, put, key, chunks);
    SealedParcels(crypto, put, key, chunks);
  }

  /** When the file can be had **/

  ghost predicate HasRight(crypto: Crypto, files: map<string, string>, id: string) {
    id in files && Sha256Hex(crypto.digest, files[id]) == id
  }

  // Before the upload, some of these peers had bytes with the right hash, or had nothing and was a target.
  ghost predicate Obtainable(crypto: Crypto, net: Net, p: Parcel, peers: seq<Endpoint>) {
    exists q :: q in peers && WillHave(crypto, net, p, q)
  }

  ghost predicate WillHave(crypto: Crypto, net: Net, p: Parcel, q: Endpoint) {
    q in net && (HasRight(crypto, net[q].store.files, p.id) || (q in p.targets && p.id !in net[q].store.files))
  }

  lemma WillHaveIff(crypto: Crypto, net: Net, parcels: seq<Parcel>, i: nat, q: Endpoint)
    requires AllSendable(parcels) && SameTargets(parcels) && HashNamed(crypto, parcels) && i < |parcels|
    requires AllConsistent(net) && NothingEvicted(net, parcels, true) && DeliverAll(net, parcels, true).1 && q in net
    ensures q in DeliverAll(net, parcels, true).0
    ensures HasRight(crypto, DeliverAll(net, parcels, true).0[q].store.files, parcels[i].id)
       <==> WillHave(crypto, net, parcels[i], q)
  {
    FirstDeliveryWins(net, parcels, q, parcels[i].id);
    var k := FirstFor(parcels, parcels[i].id, q);
    if k.Some? {
      assert parcels[k.value].targets == parcels[i].targets;
    }
  }

  // A plaintext upload, whatever the peers held before, and a getter who knows some target of the manifest; all peers
  // honest.
  ghost predicate PlainExchange(crypto: Crypto, put: Config, get: Config, key: FileKey, name: string, content: string,
                                net: Net, replies: Replies)
  {
    && Is256Bit(crypto.digest) && key.Valid() && put.peers != [] && put.chunkSize > 0 && !put.Encrypts()
    && OneWord(name)
    && var u := UploadOf(crypto, put, key, name, content);
       var net' := RunUpload(net, u).0;
       && AllConsistent(net) && NothingEvicted(net, u.parcels, true) && RunUpload(net, u).1
       && FewBad(u.manifest, {}, get.peers) && (forall p | p in get.peers :: p in net)
       && Honest(net', {}, replies) && Sized(net')
       && NoCollisions(crypto, get.peers, Plain, Split(content, put.chunkSize), u.manifest.payload, replies)
  }

  lemma OffersIff(crypto: Crypto, net: Net, q: Endpoint, i: nat, id: string, replies: Replies)
    requires q in net && Honest(net, {}, replies) && Sized(net)
    ensures ChunkOffers(crypto, Plain, i, id, replies)(q).Some? <==> HasRight(crypto, net[q].store.files, id)
  {
    assert q in Always(net)(ForChunk(i, id), q);
    assert replies(ForChunk(i, id), q) == Some(PeerReply(net[q], RequestFor(ForChunk(i, id)), Complete));
    assert RequestFor(ForChunk(i, id)) == Framing.GetChunk(id);
    Framing.ErrIsNoData();
    if id in net[q].store.files {
      DataReplyRead(net[q].store.files[id]);
    }
  }

  // One of these peers offers acceptable bytes for a chunk.
  ghost predicate Offered(crypto: Crypto, peers: seq<Endpoint>, i: nat, id: string, replies: Replies) {
    exists q :: q in peers && ChunkOffers(crypto, Plain, i, id, replies)(q).Some?
  }

  // After the upload, chunk i is offered by one of the getter's peers exactly if it was obtainable.
  lemma OfferedIff(crypto: Crypto, put: Config, get: Config, key: FileKey, name: string, content: string, net: Net,
                   replies: Replies, i: nat)
    requires PlainExchange(crypto, put, get, key, name, content, net, replies)
    requires i < |Split(content, put.chunkSize)|
    ensures var p := UploadOf(crypto, put, key, name, content).parcels[i];
      Offered(crypto, get.peers, i, p.id, replies) <==> Obtainable(crypto, net, p, get.peers)
  {
    var u := UploadOf(crypto, put, key, name, content);
    PlainExchangeLeaves(crypto, put, get, key, name, content, net, replies);
    forall q | q in get.peers
      ensures ChunkOffers(crypto, Plain, i, u.parcels[i].id, replies)(q).Some?
         <==> WillHave(crypto, net, u.parcels[i], q)
    {
      assert q in net;
      OfferedByIff(crypto, net, DeliverAll(net, u.parcels, true).0, RunUpload(net, u).0, u.parcels, i, q, replies);
    }
  }

  lemma PlainExchangeLeaves(crypto: Crypto, put: Config, get: Config, key: FileKey, name: string, content: string,
                            net: Net, replies: Replies)
    requires PlainExchange(crypto, put, get, key, name, content, net, replies)
    ensures var u := UploadOf(crypto, put, key, name, content);
      && AllSendable(u.parcels) && SameTargets(u.parcels) && HashNamed(crypto, u.parcels)
      && DeliverAll(net, u.parcels, true).1 && SameStores(DeliverAll(net, u.parcels, true).0, RunUpload(net, u).0)
      && ManifestOnTargets(crypto, RunUpload(net, u).0, u.manifest, {})
  {
    var u := UploadOf(crypto, put, key, name, content);
    PlainParcels(crypto, put, key, Split(content, put.chunkSize));
    SealedParcels(crypto, put, key, Split(content, put.chunkSize));
    Sha256HexIsChunkId(crypto.digest, u.manifest.payload);
    UploadLeaves(crypto, net, u);
  }

  lemma OfferedByIff(crypto: Crypto, net: Net, mid: Net, net': Net, parcels: seq<Parcel>, i: nat, q: Endpoint,
                     replies: Replies)
    requires AllSendable(parcels) && SameTargets(parcels) && HashNamed(crypto, parcels) && i < |parcels|
    requires AllConsistent(net) && NothingEvicted(net, parcels, true) && DeliverAll(net, parcels, true) == (mid, true)
    requires q in net && SameStores(mid, net') && Honest(net', {}, replies) && Sized(net')
    ensures ChunkOffers(crypto, Plain, i, parcels[i].id, replies)(q).Some? <==> WillHave(crypto, net, parcels[i], q)
  {
    WillHaveIff(crypto, net, parcels, i, q);
    assert q in net' && net'[q].store == mid[q].store;
    OffersIff(crypto, net', q, i, parcels[i].id, replies);
  }

  lemma PlainManifestFound(crypto: Crypto, put: Config, get: Config, key: FileKey, name: string, content: string,
                           net: Net, replies: Replies)
    requires PlainExchange(crypto, put, get, key, name, content, net, replies)
    ensures var u := UploadOf(crypto, put, key, name, content);
      var m := ManifestOf(crypto, put, key, Word(name), content);
      && get.peers != [] && FetchManifest(crypto, get, SHARE_PREFIX + u.manifest.id, None, replies) == Some(m)
      && AccessTo(crypto, get, m) == Plain && m.chunks == ChunkIds(crypto, Split(content, put.chunkSize))
  {
    var u, chunks := UploadOf(crypto, put, key, name, content), Split(content, put.chunkSize);
    PlainExchangeLeaves(crypto, put, get, key, name, content, net, replies);
    UploadDescribes(crypto, put, get, key, name, content);
    ManifestFound(crypto, get, u, chunks, ManifestOf(crypto, put, key, Word(name), content), RunUpload(net, u).0, Plain,
                  replies);
    AccessOfUpload(crypto, put, get, key, Word(name), content);
  }

  /**
   * After any plaintext putFile that returns and evicts nothing, over peers that may have held anything before,
   * ciphertext under the same ids included: getFile writes the original bytes and returns if and only if each chunk was
   * obtainable, that is, one of the getter's peers had the right bytes already, or had nothing and was one of the
   * chunk's targets. A peer with other bytes keeps them.
   */
  lemma PlainRoundTripIff(crypto: Crypto, put: Config, get: Config, key: FileKey, name: string, content: string,
                          net: Net, replies: Replies)
    requires PlainExchange(crypto, put, get, key, name, content, net, replies)
    ensures var u := UploadOf(crypto, put, key, name, content);
      Fetch(crypto, get, SHARE_PREFIX + u.manifest.id, None, replies) == Wrote(content, true)
      <==> forall i | 0 <= i < |u.parcels| :: Obtainable(crypto, net, u.parcels[i], get.peers)
  {
    var u, chunks := UploadOf(crypto, put, key, name, content), Split(content, put.chunkSize);
    var m, ref := ManifestOf(crypto, put, key, Word(name), content), SHARE_PREFIX + u.manifest.id;
    PlainManifestFound(crypto, put, get, key, name, content, net, replies);
    forall i | 0 <= i < |chunks|
      ensures Offered(crypto, get.peers, i, m.chunks[i], replies)
         <==> Obtainable(crypto, net, u.parcels[i], get.peers)
    {
      OfferedIff(crypto, put, get, key, name, content, net, replies, i);
    }
    FetchedIff(crypto, get, m, chunks, ref, u.manifest.payload, replies);
    SplitIs(content, put.chunkSize);
  }

  // With the manifest at hand and no impostors, the file is written exactly if every chunk is offered.
  lemma FetchedIff(crypto: Crypto, get: Config, m: Manifest, chunks: seq<string>, ref: string, text: string,
                   replies: Replies)
    requires get.peers != [] && FetchManifest(crypto, get, ref, None, replies) == Some(m)
    requires AccessTo(crypto, get, m) == Plain && m.chunks == ChunkIds(crypto, chunks)
    requires NoCollisions(crypto, get.peers, Plain, chunks, text, replies)
    ensures Fetch(crypto, get, ref, None, replies) == Wrote(Concat(chunks), true)
       <==> forall i | 0 <= i < |chunks| :: Offered(crypto, get.peers, i, m.chunks[i], replies)
  {
    if i :| 0 <= i < |chunks| && !Offered(crypto, get.peers, i, m.chunks[i], replies) {
      forall p | p in get.peers ensures ChunkOffers(crypto, Plain, i, m.chunks[i], replies)(p) == None {
      }
      UnofferedChunkFails(crypto, get, m, Plain, i, ref, replies);
    } else {
      forall i | 0 <= i < |chunks|
        ensures OffersOnly(get.peers, ChunkOffers(crypto, Plain, i, m.chunks[i], replies), chunks[i])
      {
        OfferedIsOnly(crypto, get, m, chunks, i, text, replies);
      }
      OfferedAreCollected(crypto, get, Plain, m.chunks, chunks, replies);
      FetchGiven(crypto, get, m, Plain, ref, None, replies);
    }
  }

  lemma OfferedIsOnly(crypto: Crypto, get: Config, m: Manifest, chunks: seq<string>, i: nat, text: string,
                      replies: Replies)
    requires m.chunks == ChunkIds(crypto, chunks) && i < |chunks|
    requires NoCollisions(crypto, get.peers, Plain, chunks, text, replies)
    requires Offered(crypto, get.peers, i, m.chunks[i], replies)
    ensures OffersOnly(get.peers, ChunkOffers(crypto, Plain, i, m.chunks[i], replies), chunks[i])
  {
    var offers := ChunkOffers(crypto, Plain, i, m.chunks[i], replies);
    forall p | p in get.peers && offers(p).Some? ensures offers(p).value == chunks[i] {
      assert offers(p) == Accepted(crypto, Plain, i, m.chunks[i], replies(ForChunk(i, m.chunks[i]), p));
    }
  }
}
