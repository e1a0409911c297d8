/**
 * A file put to new peers and got back from them: the round trips with nothing assumed about what an upload leaves
 * behind or what peers answer.
 */
module EndToEnd {
  import opened Basics
  import opened Text
  import opened Store
  import opened StoreRuns
  import opened Kademlia
  import opened Routing
  import opened Chunking
  import opened Manifest
  import opened Peers
  import opened Upload
  import opened Room
  import opened FileNames
  import opened Download
  import opened OwnHeaders
  import opened RoundTrip
  import opened EncryptedRoundTrip
  import opened Deduplication
  import opened Retrieval
  import Framing

  // A peer that holds nothing yet, and has room.
  ghost predicate New(p: Peer, room: nat) {
    p == Peer(Empty(p.store.maxBytes), map[]) && (p.store.maxBytes == 0 || room <= p.store.maxBytes)
  }

  // Peers that hold nothing yet, each with room for the parcels it is to have.
  ghost predicate NewNet(net: Net, peers: seq<Endpoint>, parcels: seq<Parcel>) {
    (forall p :: p in net <==> p in peers) && forall p | p in net :: New(net[p], Owed(parcels, p))
  }

  // Every peer answers from what it holds.
  ghost function HonestReplies(net: Net): Replies {
    (ask, p) => if p in net then Some(PeerReply(net[p], RequestFor(ask), Complete)) else None
  }

  lemma NewNetIsRoomy(net: Net, peers: seq<Endpoint>, parcels: seq<Parcel>)
    requires NewNet(net, peers, parcels)
    ensures NetRoomy(net, parcels)
  {
    forall p | p in net ensures Roomy(net[p].store, Owed(parcels, p)) {
      assert New(net[p], Owed(parcels, p));
      EmptyIsRepresented(net[p].store.maxBytes);
    }
  }

  /** The upload returns **/

  ghost predicate AllReachable(net: Net, parcels: seq<Parcel>) {
    forall i | 0 <= i < |parcels| :: Reachable(net, parcels[i].targets)
  }

  lemma {:induction false} AllAreDelivered(net: Net, parcels: seq<Parcel>, dedup: bool)
    requires AllSendable(parcels) && AllConsistent(net) && NothingEvicted(net, parcels, dedup)
    requires AllReachable(net, parcels)
    ensures DeliverAll(net, parcels, dedup).1
  {
    if parcels != [] {
      var p, rest := parcels[0], parcels[1..];
      assert Sendable(p) && Reachable(net, p.targets);
      DeliverIs(net, p, dedup);
      var net' := Deliver(net, p, dedup).0;
      forall i | 0 <= i < |rest| ensures Sendable(rest[i]) && Reachable(net', rest[i].targets) {
        assert rest[i] == parcels[i + 1];
        assert Reachable(net, parcels[i + 1].targets);
      }
      AllAreDelivered(net', rest, dedup);
    }
  }

  // If any manifest is held, it is this one.
  ghost predicate OnlyManifest(net: Net, id: string, text: string) {
    forall q, h | q in net && h in net[q].manifests :: h == id && net[q].manifests[h] == text
  }

  lemma {:induction false} ManifestIsDelivered(net: Net, targets: seq<Endpoint>, id: string, text: string)
    requires Reachable(net, targets) && OnlyManifest(net, id, text)
    ensures SendManifestTo(net, targets, id, text).1
    ensures OnlyManifest(SendManifestTo(net, targets, id, text).0, id, text)
  {
    if targets != [] {
      assert targets[0] in targets;
      ManifestIsDelivered(SendManifest(net, targets[0], id, text), targets[1..], id, text);
    }
  }

  /** What it leaves **/

  ghost predicate Carried(parcels: seq<Parcel>, id: string, data: string) {
    exists i :: 0 <= i < |parcels| && parcels[i].id == id && parcels[i].payload == data
  }

  // Every file of every peer came with one of the parcels.
  ghost predicate OnlyFrom(net: Net, parcels: seq<Parcel>) {
    forall q, id | q in net && id in net[q].store.files :: Carried(parcels, id, net[q].store.files[id])
  }

  lemma DeliveredOnlyFrom(net: Net, net': Net, p: Parcel, recipients: seq<Endpoint>, all: seq<Parcel>)
    requires DeliveredTo(net, net', p, recipients) && OnlyFrom(net, all) && Carried(all, p.id, p.payload)
    ensures OnlyFrom(net', all)
  {
    forall q, id | q in net' && id in net'[q].store.files ensures Carried(all, id, net'[q].store.files[id]) {
      if q in recipients {
        assert StoredAt(net[q], net'[q], p.id, p.payload);
      }
    }
  }

  lemma {:induction false} AllOnlyFrom(net: Net, parcels: seq<Parcel>, dedup: bool, all: seq<Parcel>)
    requires AllSendable(parcels) && AllConsistent(net) && NothingEvicted(net, parcels, dedup)
    requires DeliverAll(net, parcels, dedup).1
    requires OnlyFrom(net, all) && forall i | 0 <= i < |parcels| :: Carried(all, parcels[i].id, parcels[i].payload)
    ensures OnlyFrom(DeliverAll(net, parcels, dedup).0, all)
  {
    if parcels != [] {
      var p, rest := parcels[0], parcels[1..];
      FirstDelivery(net, parcels, dedup);
      assert Carried(all, p.id, p.payload);
      DeliveredOnlyFrom(net, Deliver(net, p, dedup).0, p, Recipients(net, p, dedup), all);
      forall i | 0 <= i < |rest| ensures Carried(all, rest[i].id, rest[i].payload) {
        assert rest[i] == parcels[i + 1];
      }
      AllOnlyFrom(Deliver(net, p, dedup).0, rest, dedup, all);
    }
  }

  // The upload returned, and its chunks and its manifest are all there is.
  ghost predicate Uploaded(net: Net, u: Upload) {
    && RunUpload(net, u).1 && RunUpload(net, u).0.Keys == net.Keys
    && OnlyFrom(RunUpload(net, u).0, u.parcels) && OnlyManifest(RunUpload(net, u).0, u.manifest.id, u.manifest.payload)
  }

  lemma UploadToNewPeers(crypto: Crypto, net: Net, peers: seq<Endpoint>, u: Upload)
    requires NewNet(net, peers, u.parcels) && AllSendable(u.parcels) && IsManifest(crypto, u.manifest)
    requires AllReachable(net, u.parcels) && Reachable(net, u.manifest.targets)
    ensures Uploaded(net, u)
  {
    NewNetIsRoomy(net, peers, u.parcels);
    RoomSuffices(net, u.parcels, u.dedup);
    AllAreDelivered(net, u.parcels, u.dedup);
    DeliverAllIs(net, u.parcels, u.dedup);
    forall q | q in net ensures net[q].store.files == map[] && net[q].manifests == map[] {
      assert New(net[q], Owed(u.parcels, q));
    }
    AllOnlyFrom(net, u.parcels, u.dedup, u.parcels);
    var mid := DeliverAll(net, u.parcels, u.dedup).0;
    assert Grows(net, mid);
    ManifestIsDelivered(mid, u.manifest.targets, u.manifest.id, u.manifest.payload);
    SendManifestToIs(mid, u.manifest.targets, u.manifest.id, u.manifest.payload);
    var net' := RunUpload(net, u).0;
    forall q, id | q in net' && id in net'[q].store.files ensures Carried(u.parcels, id, net'[q].store.files[id]) {
      assert net'[q].store == mid[q].store;
    }
  }

  lemma UploadedIsSized(net: Net, u: Upload)
    requires Uploaded(net, u) && MachineSized(u)
    ensures Sized(RunUpload(net, u).0)
  {
    var net' := RunUpload(net, u).0;
    forall q, id | q in net' && id in net'[q].store.files ensures |net'[q].store.files[id]| < TWO_TO_64 {
      assert Carried(u.parcels, id, net'[q].store.files[id]);
    }
  }

  /** Targets **/

  // Some configured peer is not this client itself, so that there is somewhere to put things.
  predicate HasTargets(crypto: Crypto, cfg: Config) {
    Table(crypto.digest, cfg.peers) != []
  }

  lemma TargetsAreKnown(crypto: Crypto, cfg: Config, key: string)
    requires HasTargets(crypto, cfg)
    ensures var targets := Placement(crypto.digest, cfg.peers, key, cfg.Replicas());
      targets != [] && Distinct(targets) && forall t | t in targets :: t in cfg.peers
  {
    PlacementIs(crypto.digest, cfg.peers, key, cfg.Replicas());
  }

  lemma UploadTargets(crypto: Crypto, cfg: Config, key: FileKey, name: string, content: string, net: Net)
    requires key.Valid() && cfg.chunkSize > 0 && HasTargets(crypto, cfg) && forall p | p in cfg.peers :: p in net
    ensures var u := UploadOf(crypto, cfg, key, name, content);
      AllReachable(net, u.parcels) && Reachable(net, u.manifest.targets) && FewBadFor(u, {}, cfg.peers)
  {
    var u := UploadOf(crypto, cfg, key, name, content);
    var chunks := Split(content, cfg.chunkSize);
    forall i | 0 <= i < |chunks|
      ensures Reachable(net, u.parcels[i].targets) && FewBad(u.parcels[i], {}, cfg.peers)
    {
      TargetsAreKnown(crypto, cfg, ChunkId(crypto, chunks[i]));
    }
    TargetsAreKnown(crypto, cfg, "manifest:" + u.manifest.id);
  }

  /** What peers can then offer **/

  lemma OfferedManifest(net: Net, p: Endpoint, id: string, text: string)
    requires OnlyManifest(net, id, text) && |text| < TWO_TO_64
    ensures var reply := HonestReplies(net)(ForManifest(id), p);
      reply.Some? && Framing.DataOf(reply.value).Some? ==> Framing.DataOf(reply.value).value == text
  {
    Framing.ErrIsNoData();
    if p in net {
      assert HonestReplies(net)(ForManifest(id), p) == Some(PeerReply(net[p], RequestFor(ForManifest(id)), Complete));
      assert RequestFor(ForManifest(id)) == Framing.GetManifest(id);
      DataReplyRead(text);
    }
  }

  // A peer's answer for a chunk is a payload carried under its id, or nothing.
  lemma OfferedChunk(net: Net, parcels: seq<Parcel>, p: Endpoint, i: nat, id: string)
    requires OnlyFrom(net, parcels) && Sized(net)
    ensures var reply := HonestReplies(net)(ForChunk(i, id), p);
      reply.Some? && Framing.DataOf(reply.value).Some? ==> Carried(parcels, id, Framing.DataOf(reply.value).value)
  {
    Framing.ErrIsNoData();
    if p in net {
      assert HonestReplies(net)(ForChunk(i, id), p) == Some(PeerReply(net[p], RequestFor(ForChunk(i, id)), Complete));
      assert RequestFor(ForChunk(i, id)) == Framing.GetChunk(id);
      if id in net[p].store.files {
        DataReplyRead(net[p].store.files[id]);
      }
    }
  }

  lemma PlainNoCollisions(crypto: Crypto, cfg: Config, key: FileKey, chunks: seq<string>, net: Net, m: Parcel)
    requires key.Valid() && !cfg.Encrypts() && ChunksApart(crypto, chunks)
    requires OnlyFrom(net, Parcels(crypto, cfg, key, chunks)) && OnlyManifest(net, m.id, m.payload) && Sized(net)
    requires m.id == Sha256Hex(crypto.digest, m.payload) && |m.payload| < TWO_TO_64
    ensures NoCollisions(crypto, cfg.peers, Plain, chunks, m.payload, HonestReplies(net))
  {
    forall i, p | 0 <= i < |chunks| && p in cfg.peers
      ensures var id := ChunkId(crypto, chunks[i]);
        var a := Accepted(crypto, Plain, i, id, HonestReplies(net)(ForChunk(i, id), p));
        a.Some? ==> a.value == chunks[i]
    {
      OfferedChunk(net, Parcels(crypto, cfg, key, chunks), p, i, ChunkId(crypto, chunks[i]));
    }
    forall p | p in cfg.peers
      ensures var reply := HonestReplies(net)(ForManifest(m.id), p);
        reply.Some? && Framing.DataOf(reply.value).Some? ==> Framing.DataOf(reply.value).value == m.payload
    {
      OfferedManifest(net, p, m.id, m.payload);
    }
  }

  // The manifest fetched is what the text of the only one there is says.
  lemma OnlyManifestIsFetched(crypto: Crypto, cfg: Config, net: Net, m: Parcel, t: Endpoint)
    requires OnlyManifest(net, m.id, m.payload) && |m.payload| < TWO_TO_64 && IsManifest(crypto, m)
    requires t in cfg.peers && t in net && m.id in net[t].manifests
    ensures FetchManifest(crypto, cfg, SHARE_PREFIX + m.id, None, HonestReplies(net)) == Parse(m.payload)
  {
    var offers := ManifestOffers(crypto, m.id, HonestReplies(net));
    assert (SHARE_PREFIX + m.id)[|SHARE_PREFIX|..] == m.id;
    forall p ensures offers(p).None? || offers(p) == Parse(m.payload) {
      OnlyManifestOffered(crypto, net, m, p);
    }
    OnlyManifestOffered(crypto, net, m, t);
    CandidatesCoverPeers(crypto, cfg, "manifest:" + m.id);
    FirstOfIs(Candidates(crypto, cfg, "manifest:" + m.id), offers);
  }

  lemma OnlyManifestOffered(crypto: Crypto, net: Net, m: Parcel, p: Endpoint)
    requires OnlyManifest(net, m.id, m.payload) && |m.payload| < TWO_TO_64 && IsManifest(crypto, m)
    ensures var offer := ManifestOffers(crypto, m.id, HonestReplies(net))(p);
      offer == if p in net && m.id in net[p].manifests then Parse(m.payload) else None
  {
    var replies := HonestReplies(net);
    assert ManifestOffers(crypto, m.id, replies)(p)
        == AcceptedManifest(crypto, m.id, replies(ForManifest(m.id), p));
    if p in net {
      assert replies(ForManifest(m.id), p) == Some(PeerReply(net[p], RequestFor(ForManifest(m.id)), Complete));
      assert RequestFor(ForManifest(m.id)) == Framing.GetManifest(m.id);
      Framing.ErrIsNoData();
      AcceptedText(crypto, m.payload);
    }
  }

  lemma UploadIsAskable(net: Net, peers: seq<Endpoint>, u: Upload)
    requires FewBadFor(u, {}, peers) && forall p | p in peers :: p in net
    ensures Askable(net, peers, u.parcels)
    ensures u.manifest.targets != [] && u.manifest.targets[0] in u.manifest.targets
    ensures u.manifest.targets[0] in peers
  {
    assert FewBad(u.manifest, {}, peers);
    assert u.manifest.targets[0] in u.manifest.targets;
    forall i | 0 <= i < |u.parcels| ensures exists t :: t in u.parcels[i].targets && t in peers {
      assert FewBad(u.parcels[i], {}, peers);
      assert u.parcels[i].targets[0] in u.parcels[i].targets;
    }
  }

  // After an upload to new peers, getFile gives what the manifest's text makes of the parcels.
  lemma NewUploadIsRetrieved(crypto: Crypto, cfg: Config, net: Net, u: Upload)
    requires NewNet(net, cfg.peers, u.parcels) && cfg.peers != [] && Uploaded(net, u)
    requires AllSendable(u.parcels) && SameTargets(u.parcels) && (u.dedup ==> SamePayloads(u.parcels))
    requires AllConsistent(net) && NothingEvicted(net, u.parcels, u.dedup) && IsManifest(crypto, u.manifest)
    requires FewBadFor(u, {}, cfg.peers) && |u.manifest.payload| < TWO_TO_64 && Sized(RunUpload(net, u).0)
    ensures GoesByText(crypto, cfg, u, HonestReplies(RunUpload(net, u).0))
  {
    var net' := RunUpload(net, u).0;
    NewPeersAreBare(net, cfg.peers, u.parcels);
    UploadHoldsLast(crypto, net, u);
    UploadLeaves(crypto, net, u);
    UploadIsAskable(net', cfg.peers, u);
    OnlyManifestIsFetched(crypto, cfg, net', u.manifest, u.manifest.targets[0]);
    FetchIsRetrieved(crypto, cfg, net', u.parcels, SHARE_PREFIX + u.manifest.id, None, HonestReplies(net'));
    LocalIsRetrieved(crypto, cfg, net', u.parcels, u.manifest.payload);
  }

  lemma LocalIsRetrieved(crypto: Crypto, cfg: Config, net: Net, parcels: seq<Parcel>, text: string)
    requires cfg.peers != [] && HoldsLast(net, parcels) && Askable(net, cfg.peers, parcels) && Sized(net)
    ensures forall ref ::
              Fetch(crypto, cfg, ref, Some(text), HonestReplies(net)) == Retrieved(crypto, cfg, parcels, Parse(text))
  {
    forall ref
      ensures Fetch(crypto, cfg, ref, Some(text), HonestReplies(net)) == Retrieved(crypto, cfg, parcels, Parse(text))
    {
      FetchIsRetrieved(crypto, cfg, net, parcels, ref, Some(text), HonestReplies(net));
    }
  }

  // Asked by share id, or going by a local copy of the manifest, getFile does what the text says.
  ghost predicate GoesByText(crypto: Crypto, cfg: Config, u: Upload, replies: Replies) {
    var result := Retrieved(crypto, cfg, u.parcels, Parse(u.manifest.payload));
    && Fetch(crypto, cfg, SHARE_PREFIX + u.manifest.id, None, replies) == result
    && forall ref :: Fetch(crypto, cfg, ref, Some(u.manifest.payload), replies) == result
  }

  /** File names of several words **/

  // The word "size" is no key.
  lemma SizeIsNoKey(crypto: Crypto, cfg: Config, m: Manifest)
    requires m.encrypted && m.encryptedKeyHex == "size"
    ensures AccessTo(crypto, cfg, m).NoAccess?
  {
    assert FromHex("size") == None by {
      assert "size"[..2] == "si" && PairValue("si") == None;
    }
  }

  // Getting back a file whose name is not one word is getting back what the name spells.
  lemma NameDecides(crypto: Crypto, cfg: Config, parcels: seq<Parcel>, m: Manifest, bytes: string)
    requires !OneWord(m.originalName) && forall i | 0 <= i < |parcels| :: |parcels[i].id| == 64
    ensures Retrieved(crypto, cfg, parcels, Parse(Serialize(m))) == Wrote(bytes, true)
       <==> GivesBack(crypto, cfg, parcels, OwnManifest(m.originalName), bytes)
  {
    var read, own := Parse(Serialize(m)), OwnManifest(m.originalName);
    ReadsAsItsName(m);
    RetrievedIff(crypto, cfg, parcels, read, bytes);
    if own.None? && read.Some? {
      if "size" in read.value.chunks {
        UnknownIdGivesNothing(crypto, cfg, parcels, read.value, "size", bytes);
      } else {
        SizeIsNoKey(crypto, cfg, read.value);
      }
    }
  }

  lemma ParcelIds(crypto: Crypto, cfg: Config, key: FileKey, chunks: seq<string>)
    requires Is256Bit(crypto.digest) && key.Valid()
    ensures forall i | 0 <= i < |chunks| :: |Parcels(crypto, cfg, key, chunks)[i].id| == 64
  {
    forall i | 0 <= i < |chunks| ensures |Parcels(crypto, cfg, key, chunks)[i].id| == 64 {
      Sha256HexIsChunkId(crypto.digest, chunks[i]);
    }
  }

  /** The round trips **/

  lemma PlainUpload(crypto: Crypto, cfg: Config, key: FileKey, chunks: seq<string>, net: Net, u: Upload)
    requires Is256Bit(crypto.digest) && key.Valid() && !cfg.Encrypts() && HasTargets(crypto, cfg)
    requires u.parcels == Parcels(crypto, cfg, key, chunks) && u.dedup
    requires u.manifest.id == Sha256Hex(crypto.digest, u.manifest.payload) && MachineSized(u)
    requires NewNet(net, cfg.peers, u.parcels)
    requires AllReachable(net, u.parcels) && Reachable(net, u.manifest.targets)
    ensures Uploaded(net, u) && Sized(RunUpload(net, u).0)
    ensures AllConsistent(net) && NothingEvicted(net, u.parcels, true) && RightlyStored(crypto, net, u.parcels, {})
  {
    assert cfg.peers != [];
    PlainParcels(crypto, cfg, key, chunks);
    Sha256HexIsChunkId(crypto.digest, u.manifest.payload);
    UploadToNewPeers(crypto, net, cfg.peers, u);
    UploadedIsSized(net, u);
    NewNetIsRoomy(net, cfg.peers, u.parcels);
    RoomSuffices(net, u.parcels, true);
    NewPeersHaveNothing(net, cfg.peers, u.parcels);
  }

  lemma PlainUploadIsRetrieved(crypto: Crypto, cfg: Config, key: FileKey, name: string, content: string, net: Net)
    requires Is256Bit(crypto.digest) && key.Valid() && cfg.chunkSize > 0 && !cfg.Encrypts()
    requires HasTargets(crypto, cfg) && ChunksApart(crypto, Split(content, cfg.chunkSize))
    requires var u := UploadOf(crypto, cfg, key, name, content);
      NewNet(net, cfg.peers, u.parcels) && MachineSized(u)
    ensures var u := UploadOf(crypto, cfg, key, name, content); var r := RunUpload(net, u);
      r.1 && GoesByText(crypto, cfg, u, HonestReplies(r.0))
    ensures OneWord(name) ==>
              var u := UploadOf(crypto, cfg, key, name, content);
              Retrieved(crypto, cfg, u.parcels, Parse(u.manifest.payload)) == Wrote(content, true)
  {
    var u, chunks := UploadOf(crypto, cfg, key, name, content), Split(content, cfg.chunkSize);
    UploadTargets(crypto, cfg, key, name, content, net);
    PlainUpload(crypto, cfg, key, chunks, net, u);
    PlainUploadQualifies(crypto, cfg, key, chunks);
    Sha256HexIsChunkId(crypto.digest, u.manifest.payload);
    NewUploadIsRetrieved(crypto, cfg, net, u);
    if OneWord(name) {
      var net' := RunUpload(net, u).0;
      PlainNoCollisions(crypto, cfg, key, chunks, net', u.manifest);
      PlainRoundTrip(crypto, cfg, cfg, key, name, content, net, {}, HonestReplies(net'));
    }
  }

  /**
   * putFile to new peers with room, none of them down, returns, whatever the file is called. getFile then does what the
   * text of the manifest says, and refuses if it does not parse. So if the file's name is a single word, up to white
   * space around it, it writes exactly the original bytes; otherwise it returns only where the name by itself spells
   * a manifest the pieces of which are to be had, and writes those. What is assumed of SHA-256 is its length, and that
   * different chunks of this file have different hashes.
   */
  lemma PutThenGet(crypto: Crypto, cfg: Config, key: FileKey, name: string, content: string, net: Net)
    requires Is256Bit(crypto.digest) && key.Valid() && cfg.chunkSize > 0 && !cfg.Encrypts()
    requires HasTargets(crypto, cfg) && ChunksApart(crypto, Split(content, cfg.chunkSize))
    requires var u := UploadOf(crypto, cfg, key, name, content);
      NewNet(net, cfg.peers, u.parcels) && MachineSized(u)
    ensures var u := UploadOf(crypto, cfg, key, name, content); var r := RunUpload(net, u);
      var got := Fetch(crypto, cfg, SHARE_PREFIX + u.manifest.id, None, HonestReplies(r.0));
      && r.1
      && got == Retrieved(crypto, cfg, u.parcels, Parse(u.manifest.payload))
      && (forall ref :: Fetch(crypto, cfg, ref, Some(u.manifest.payload), HonestReplies(r.0)) == got)
      && (Unreadable(name) ==> got == Refused)
      && forall bytes :: got == Wrote(bytes, true)
                         <==> if OneWord(name) then bytes == content
                              else GivesBack(crypto, cfg, u.parcels, OwnManifest(name), bytes)
  {
    var u, m := UploadOf(crypto, cfg, key, name, content), ManifestOf(crypto, cfg, key, name, content);
    PlainUploadIsRetrieved(crypto, cfg, key, name, content, net);
    if Unreadable(name) {
      UnreadableNameIsRefused(m);
    }
    if !OneWord(name) {
      ParcelIds(crypto, cfg, key, Split(content, cfg.chunkSize));
      forall bytes
        ensures Retrieved(crypto, cfg, u.parcels, Parse(u.manifest.payload)) == Wrote(bytes, true)
           <==> GivesBack(crypto, cfg, u.parcels, OwnManifest(name), bytes)
      {
        NameDecides(crypto, cfg, u.parcels, m, bytes);
      }
    }
  }

  // What was sealed as chunk j opens as chunk i only if they are the same.
  lemma OpensToItsOwn(crypto: Crypto, cfg: Config, key: FileKey, chunks: seq<string>, i: nat, j: nat)
    requires key.Valid() && cfg.Encrypts() && Opens(crypto) && Authenticates(crypto)
    requires i < |chunks| <= COUNTER_LIMIT && j < |chunks|
    ensures Opened(crypto, Keyed(key.key, key.iv), Parcels(crypto, cfg, key, chunks)[j].payload, i)
         == if i == j then Some(chunks[i]) else None
  {
    assert Parcels(crypto, cfg, key, chunks)[j].payload == Payload(crypto, cfg, key, chunks[j], j);
    if j == i {
      SealedOpens(crypto, cfg, key, chunks[i], i);
    } else {
      SealedElsewhereDoesNotOpen(crypto, cfg, key, chunks[j], i, j);
    }
  }

  lemma CarriedOpens(crypto: Crypto, cfg: Config, key: FileKey, chunks: seq<string>, i: nat, id: string, data: string)
    requires key.Valid() && cfg.Encrypts() && Opens(crypto) && Authenticates(crypto) && i < |chunks| <= COUNTER_LIMIT
    requires Carried(Parcels(crypto, cfg, key, chunks), id, data)
    ensures var x := Opened(crypto, Keyed(key.key, key.iv), data, i); x.Some? ==> x.value == chunks[i]
  {
    var parcels := Parcels(crypto, cfg, key, chunks);
    var j :| 0 <= j < |parcels| && parcels[j].id == id && parcels[j].payload == data;
    OpensToItsOwn(crypto, cfg, key, chunks, i, j);
  }

  lemma KeyedOffer(crypto: Crypto, cfg: Config, key: FileKey, chunks: seq<string>, net: Net, p: Endpoint, i: nat)
    requires key.Valid() && cfg.Encrypts() && Opens(crypto) && Authenticates(crypto) && i < |chunks| <= COUNTER_LIMIT
    requires OnlyFrom(net, Parcels(crypto, cfg, key, chunks)) && Sized(net)
    ensures var id := ChunkId(crypto, chunks[i]);
      var a := Accepted(crypto, Keyed(key.key, key.iv), i, id, HonestReplies(net)(ForChunk(i, id), p));
      a.Some? ==> a.value == chunks[i]
  {
    var id := ChunkId(crypto, chunks[i]);
    OfferedChunk(net, Parcels(crypto, cfg, key, chunks), p, i, id);
    var reply := HonestReplies(net)(ForChunk(i, id), p);
    if reply.Some? && Framing.DataOf(reply.value).Some? {
      CarriedOpens(crypto, cfg, key, chunks, i, id, Framing.DataOf(reply.value).value);
    }
  }

  lemma KeyedNoCollisions(crypto: Crypto, cfg: Config, key: FileKey, chunks: seq<string>, net: Net, m: Parcel)
    requires key.Valid() && cfg.Encrypts() && Opens(crypto) && Authenticates(crypto) && |chunks| <= COUNTER_LIMIT
    requires OnlyFrom(net, Parcels(crypto, cfg, key, chunks)) && OnlyManifest(net, m.id, m.payload) && Sized(net)
    requires m.id == Sha256Hex(crypto.digest, m.payload) && |m.payload| < TWO_TO_64
    ensures NoCollisions(crypto, cfg.peers, Keyed(key.key, key.iv), chunks, m.payload, HonestReplies(net))
  {
    forall i, p | 0 <= i < |chunks| && p in cfg.peers
      ensures var id := ChunkId(crypto, chunks[i]);
        var a := Accepted(crypto, Keyed(key.key, key.iv), i, id, HonestReplies(net)(ForChunk(i, id), p));
        a.Some? ==> a.value == chunks[i]
    {
      KeyedOffer(crypto, cfg, key, chunks, net, p, i);
    }
    forall p | p in cfg.peers
      ensures var reply := HonestReplies(net)(ForManifest(m.id), p);
        reply.Some? && Framing.DataOf(reply.value).Some? ==> Framing.DataOf(reply.value).value == m.payload
    {
      OfferedManifest(net, p, m.id, m.payload);
    }
  }

  lemma SealedUploadIsRetrieved(crypto: Crypto, cfg: Config, key: FileKey, name: string, content: string, net: Net)
    requires Is256Bit(crypto.digest) && key.Valid() && cfg.chunkSize > 0 && cfg.Encrypts() && HasTargets(crypto, cfg)
    requires var u := UploadOf(crypto, cfg, key, name, content);
      NewNet(net, cfg.peers, u.parcels) && MachineSized(u)
    ensures var u := UploadOf(crypto, cfg, key, name, content); var r := RunUpload(net, u);
      r.1 && GoesByText(crypto, cfg, u, HonestReplies(r.0))
  {
    var u, chunks := UploadOf(crypto, cfg, key, name, content), Split(content, cfg.chunkSize);
    UploadTargets(crypto, cfg, key, name, content, net);
    SealedUpload(crypto, cfg, key, chunks, net, u);
    assert cfg.peers != [];
    SealedParcels(crypto, cfg, key, chunks);
    Sha256HexIsChunkId(crypto.digest, u.manifest.payload);
    NewUploadIsRetrieved(crypto, cfg, net, u);
  }

  /**
   * The same for an encrypted file, with nothing assumed about collisions: putFile returns, and getFile does what the
   * text of the manifest says. If the name is a single word, up to white space around it, it returns if and only if no
   * two chunks of the file have the same hash, with the original bytes; otherwise it returns only where the name by
   * itself spells a manifest the pieces of which are to be had, and writes those.
   */
  lemma EncryptedPutThenGet(crypto: Crypto, cfg: Config, key: FileKey, name: string, content: string, net: Net)
    requires Is256Bit(crypto.digest) && Opens(crypto) && Authenticates(crypto) && KeyPair(crypto, cfg, cfg)
    requires key.Valid() && cfg.chunkSize > 0 && cfg.Encrypts() && HasTargets(crypto, cfg)
    requires |Split(content, cfg.chunkSize)| <= COUNTER_LIMIT
    requires var u := UploadOf(crypto, cfg, key, name, content);
      NewNet(net, cfg.peers, u.parcels) && MachineSized(u)
    ensures var u := UploadOf(crypto, cfg, key, name, content); var r := RunUpload(net, u);
      var got := Fetch(crypto, cfg, SHARE_PREFIX + u.manifest.id, None, HonestReplies(r.0));
      && r.1
      && got == Retrieved(crypto, cfg, u.parcels, Parse(u.manifest.payload))
      && (forall ref :: Fetch(crypto, cfg, ref, Some(u.manifest.payload), HonestReplies(r.0)) == got)
      && (Unreadable(name) ==> got == Refused)
      && forall bytes :: got == Wrote(bytes, true)
                         <==> if OneWord(name)
                              then bytes == content && Distinct(ChunkIds(crypto, Split(content, cfg.chunkSize)))
                              else GivesBack(crypto, cfg, u.parcels, OwnManifest(name), bytes)
  {
    var u, m := UploadOf(crypto, cfg, key, name, content), ManifestOf(crypto, cfg, key, name, content);
    SealedUploadIsRetrieved(crypto, cfg, key, name, content, net);
    if Unreadable(name) {
      UnreadableNameIsRefused(m);
    }
    if OneWord(name) {
      EncryptedExchangeIsClean(crypto, cfg, key, name, content, net);
      EncryptedRoundTripIff(crypto, cfg, cfg, key, name, content, net, HonestReplies(RunUpload(net, u).0));
    } else {
      ParcelIds(crypto, cfg, key, Split(content, cfg.chunkSize));
      forall bytes
        ensures Retrieved(crypto, cfg, u.parcels, Parse(u.manifest.payload)) == Wrote(bytes, true)
           <==> GivesBack(crypto, cfg, u.parcels, OwnManifest(name), bytes)
      {
        NameDecides(crypto, cfg, u.parcels, m, bytes);
      }
    }
  }

  lemma EncryptedExchangeIsClean(crypto: Crypto, cfg: Config, key: FileKey, name: string, content: string, net: Net)
    requires Is256Bit(crypto.digest) && Opens(crypto) && Authenticates(crypto) && KeyPair(crypto, cfg, cfg)
    requires key.Valid() && cfg.chunkSize > 0 && cfg.Encrypts() && OneWord(name) && HasTargets(crypto, cfg)
    requires |Split(content, cfg.chunkSize)| <= COUNTER_LIMIT
    requires var u := UploadOf(crypto, cfg, key, name, content);
      NewNet(net, cfg.peers, u.parcels) && MachineSized(u)
    ensures var net' := RunUpload(net, UploadOf(crypto, cfg, key, name, content)).0;
      CleanExchange(crypto, cfg, cfg, key, name, content, net, HonestReplies(net'))
  {
    EncryptedUploadIsClean(crypto, cfg, key, name, content, net);
    EncryptedRepliesAreClean(crypto, cfg, key, name, content, net);
  }

  lemma EncryptedUploadIsClean(crypto: Crypto, cfg: Config, key: FileKey, name: string, content: string, net: Net)
    requires Is256Bit(crypto.digest) && Opens(crypto) && Authenticates(crypto) && KeyPair(crypto, cfg, cfg)
    requires key.Valid() && cfg.chunkSize > 0 && cfg.Encrypts() && OneWord(name) && HasTargets(crypto, cfg)
    requires |Split(content, cfg.chunkSize)| <= COUNTER_LIMIT
    requires var u := UploadOf(crypto, cfg, key, name, content);
      NewNet(net, cfg.peers, u.parcels) && MachineSized(u)
    ensures CleanUpload(crypto, cfg, cfg, key, name, content, net)
  {
    UploadTargets(crypto, cfg, key, name, content, net);
    SealedUpload(crypto, cfg, key, Split(content, cfg.chunkSize), net, UploadOf(crypto, cfg, key, name, content));
  }

  lemma EncryptedRepliesAreClean(crypto: Crypto, cfg: Config, key: FileKey, name: string, content: string, net: Net)
    requires Is256Bit(crypto.digest) && Opens(crypto) && Authenticates(crypto) && HasTargets(crypto, cfg)
    requires key.Valid() && cfg.chunkSize > 0 && cfg.Encrypts()
    requires |Split(content, cfg.chunkSize)| <= COUNTER_LIMIT
    requires var u := UploadOf(crypto, cfg, key, name, content);
      NewNet(net, cfg.peers, u.parcels) && MachineSized(u)
    ensures var net' := RunUpload(net, UploadOf(crypto, cfg, key, name, content)).0;
      CleanReplies(crypto, cfg, cfg, key, name, content, net, HonestReplies(net'))
  {
    var u, chunks := UploadOf(crypto, cfg, key, name, content), Split(content, cfg.chunkSize);
    UploadTargets(crypto, cfg, key, name, content, net);
    SealedUpload(crypto, cfg, key, chunks, net, u);
    KeyedNoCollisions(crypto, cfg, key, chunks, RunUpload(net, u).0, u.manifest);
  }

  /** A file lost without a word **/

  /**
   * Whatever is in a file of such a name, encrypted or not, putFile returns, and getFile returns as well and has
   * written nothing.
   */
  lemma SilentLoss(crypto: Crypto, cfg: Config, key: FileKey, word: string, content: string, net: Net)
    requires Is256Bit(crypto.digest) && key.Valid() && cfg.chunkSize > 0 && HasTargets(crypto, cfg) && IsToken(word)
    requires !cfg.Encrypts() ==> ChunksApart(crypto, Split(content, cfg.chunkSize))
    requires var u := UploadOf(crypto, cfg, key, EmptyingName(word), content);
      NewNet(net, cfg.peers, u.parcels) && MachineSized(u)
    ensures var u := UploadOf(crypto, cfg, key, EmptyingName(word), content); var r := RunUpload(net, u);
      && r.1
      && Fetch(crypto, cfg, SHARE_PREFIX + u.manifest.id, None, HonestReplies(r.0)) == Wrote("", true)
  {
    var name := EmptyingName(word);
    EmptyingNameSpells(word);
    ReadsAsItsName(ManifestOf(crypto, cfg, key, name, content));
    if cfg.Encrypts() {
      SealedUploadIsRetrieved(crypto, cfg, key, name, content, net);
    } else {
      PlainUploadIsRetrieved(crypto, cfg, key, name, content, net);
    }
  }

  lemma SealedUpload(crypto: Crypto, cfg: Config, key: FileKey, chunks: seq<string>, net: Net, u: Upload)
    requires Is256Bit(crypto.digest) && key.Valid() && HasTargets(crypto, cfg)
    requires u.parcels == Parcels(crypto, cfg, key, chunks) && !u.dedup
    requires u.manifest.id == Sha256Hex(crypto.digest, u.manifest.payload) && MachineSized(u)
    requires NewNet(net, cfg.peers, u.parcels)
    requires AllReachable(net, u.parcels) && Reachable(net, u.manifest.targets)
    ensures Uploaded(net, u) && Sized(RunUpload(net, u).0)
    ensures AllConsistent(net) && NothingEvicted(net, u.parcels, false) && Unstored(net, u.parcels)
  {
    assert cfg.peers != [];
    SealedParcels(crypto, cfg, key, chunks);
    Sha256HexIsChunkId(crypto.digest, u.manifest.payload);
    UploadToNewPeers(crypto, net, cfg.peers, u);
    UploadedIsSized(net, u);
    NewNetIsRoomy(net, cfg.peers, u.parcels);
    RoomSuffices(net, u.parcels, false);
    NewPeersHaveNothing(net, cfg.peers, u.parcels);
  }

  lemma NewPeersHaveNothing(net: Net, peers: seq<Endpoint>, parcels: seq<Parcel>)
    requires NewNet(net, peers, parcels)
    ensures Unstored(net, parcels)
  {
    NewPeersAreBare(net, peers, parcels);
  }

  lemma NewPeersAreBare(net: Net, peers: seq<Endpoint>, parcels: seq<Parcel>)
    requires NewNet(net, peers, parcels)
    ensures forall q | q in net :: net[q].store.files == map[]
  {
    forall q | q in net ensures net[q].store.files == map[] {
      assert New(net[q], Owed(parcels, q));
    }
  }
}
