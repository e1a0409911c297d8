/** Putting a file and getting it back: when, and exactly when, the bytes are the same. */
module RoundTrip {
  import opened Basics
  import opened Text
  import opened Store
  import opened Kademlia
  import opened Routing
  import opened Chunking
  import opened Manifest
  import opened Peers
  import opened Upload
  import opened Download
  import opened FileNames
  import Framing

  /** Hypotheses **/

  function RequestFor(ask: Ask): Framing.Request {
    match ask
    case ForManifest(id) => Framing.GetManifest(id)
    case ForChunk(_, id) => Framing.GetChunk(id)
  }

  // What the peers hold when each of them is asked for each thing.
  type Moments = (Ask, Endpoint) -> Net

  function Always(net: Net): Moments {
    (ask, p) => net
  }

  // Peers outside bad answer from what they hold at that moment; those in bad, or not reachable, answer anything.
  ghost predicate HonestAt(at: Moments, bad: set<Endpoint>, replies: Replies) {
    forall p, ask | p in at(ask, p) && p !in bad ::
      replies(ask, p) == Some(PeerReply(at(ask, p)[p], RequestFor(ask), Complete))
  }

  ghost predicate Honest(net: Net, bad: set<Endpoint>, replies: Replies) {
    HonestAt(Always(net), bad, replies)
  }

  // Files fit a 64-bit size.
  ghost predicate Sized(net: Net) {
    && (forall p, id | p in net && id in net[p].store.files :: |net[p].store.files[id]| < TWO_TO_64)
    && (forall p, id | p in net && id in net[p].manifests :: |net[p].manifests[id]| < TWO_TO_64)
  }

  // Fewer peers are bad than the parcel has targets, and the getter knows the good targets.
  ghost predicate FewBad(p: Parcel, bad: set<Endpoint>, peers: seq<Endpoint>) {
    |bad| < |p.targets| && forall t | t in p.targets && t !in bad :: t in peers
  }

  ghost predicate FewBadFor(u: Upload, bad: set<Endpoint>, peers: seq<Endpoint>) {
    FewBad(u.manifest, bad, peers) && forall i | 0 <= i < |u.parcels| :: FewBad(u.parcels[i], bad, peers)
  }

  // No peer of the getter offers other bytes with the hash of one of the file's chunks, or of its manifest.
  ghost predicate NoCollisions(crypto: Crypto, peers: seq<Endpoint>, access: Access, chunks: seq<string>, text: string,
                               replies: Replies)
  {
    && (forall i, p | 0 <= i < |chunks| && p in peers ::
          var a := Accepted(crypto, access, i, ChunkId(crypto, chunks[i]),
                            replies(ForChunk(i, ChunkId(crypto, chunks[i])), p));
          a.Some? ==> a.value == chunks[i])
    && (forall p | p in peers ::
          var id := Sha256Hex(crypto.digest, text); var reply := replies(ForManifest(id), p);
          reply.Some? && Framing.DataOf(reply.value).Some?
          && Sha256Hex(crypto.digest, Framing.DataOf(reply.value).value) == id
          ==> Framing.DataOf(reply.value).value == text)
  }

  /** What an upload leaves behind **/

  // Every target outside bad has a text with the manifest's hash under its id.
  ghost predicate ManifestOnTargets(crypto: Crypto, net: Net, m: Parcel, bad: set<Endpoint>) {
    forall t | t in m.targets && t !in bad ::
      t in net && m.id in net[t].manifests && Sha256Hex(crypto.digest, net[t].manifests[m.id]) == m.id
  }

  /** From stored bytes to the getter **/

  lemma SeqAsSet(s: seq<Endpoint>) returns (r: set<Endpoint>)
    requires Distinct(s)
    ensures |r| == |s| && forall x :: x in r <==> x in s
  {
    if s == [] {
      r := {};
    } else {
      var t := SeqAsSet(s[1..]);
      assert s == [s[0]] + s[1..] && s[0] !in s[1..];
      r := t + {s[0]};
    }
  }

  lemma SubsetSize<T>(a: set<T>, b: set<T>)
    requires a <= b
    ensures |a| <= |b|
  {
    if a != {} {
      var x :| x in a;
      SubsetSize(a - {x}, b - {x});
    }
  }

  // Fewer bad peers than targets leave a good one.
  lemma GoodTarget(p: Parcel, bad: set<Endpoint>, peers: seq<Endpoint>) returns (t: Endpoint)
    requires Distinct(p.targets) && FewBad(p, bad, peers)
    ensures t in p.targets && t !in bad && t in peers
  {
    var all := SeqAsSet(p.targets);
    if all <= bad {
      SubsetSize(all, bad);
      assert false;
    }
    t :| t in all && t !in bad;
  }

  lemma DataReplyRead(data: string)
    requires |data| < TWO_TO_64
    ensures Framing.DataOf(Framing.DataReply(data)) == Some(data)
  {
    MachineNumberLength(|data|);
    assert Framing.DataReply(data) + "" == Framing.DataReply(data);
    Framing.DataReplyIsUnderstood(data, "");
  }

  // The bytes t holds under the id open, at index i, to something with that hash.
  ghost predicate ServesRight(crypto: Crypto, access: Access, net: Net, t: Endpoint, i: nat, id: string) {
    && t in net && id in net[t].store.files
    && var x := Opened(crypto, access, net[t].store.files[id], i);
       x.Some? && Sha256Hex(crypto.digest, x.value) == id
  }

  // t answers this request from what it holds in net.
  ghost predicate AnswersFrom(net: Net, t: Endpoint, ask: Ask, replies: Replies) {
    t in net && replies(ask, t) == Some(PeerReply(net[t], RequestFor(ask), Complete))
  }

  lemma GoodTargetOffersChunk(crypto: Crypto, net: Net, replies: Replies, access: Access, t: Endpoint, i: nat,
                              id: string)
    requires AnswersFrom(net, t, ForChunk(i, id), replies) && Sized(net) && ServesRight(crypto, access, net, t, i, id)
    ensures ChunkOffers(crypto, access, i, id, replies)(t) == Opened(crypto, access, net[t].store.files[id], i)
  {
    var data := net[t].store.files[id];
    assert PeerReply(net[t], Framing.GetChunk(id), Complete) == Framing.DataReply(data);
    DataReplyRead(data);
  }

  lemma AcceptedText(crypto: Crypto, text: string)
    requires |text| < TWO_TO_64
    ensures AcceptedManifest(crypto, Sha256Hex(crypto.digest, text), Some(Framing.DataReply(text))) == Parse(text)
    ensures Framing.DataOf(Framing.DataReply(text)) == Some(text)
  {
    DataReplyRead(text);
  }

  // t's reply carries a text with the hash asked for.
  predicate SendsManifest(crypto: Crypto, replies: Replies, t: Endpoint, id: string) {
    var reply := replies(ForManifest(id), t);
    && reply.Some? && Framing.DataOf(reply.value).Some?
    && Sha256Hex(crypto.digest, Framing.DataOf(reply.value).value) == id
  }

  lemma GoodTargetOffersManifest(crypto: Crypto, net: Net, bad: set<Endpoint>, replies: Replies, t: Endpoint, m: Parcel)
    requires AnswersFrom(net, t, ForManifest(m.id), replies) && Sized(net) && t !in bad && t in m.targets
    requires ManifestOnTargets(crypto, net, m, bad)
    ensures SendsManifest(crypto, replies, t, m.id)
  {
    var text := net[t].manifests[m.id];
    assert PeerReply(net[t], Framing.GetManifest(m.id), Complete) == Framing.DataReply(text);
    AcceptedText(crypto, text);
  }

  // The upload describes these chunks: ids, manifest and all.
  ghost predicate Describes(crypto: Crypto, u: Upload, chunks: seq<string>, m: Manifest) {
    && |u.parcels| == |chunks| && m.chunks == ChunkIds(crypto, chunks)
    && (forall i | 0 <= i < |chunks| :: u.parcels[i].id == ChunkId(crypto, chunks[i]) && Distinct(u.parcels[i].targets))
    && Distinct(u.manifest.targets)
    && u.manifest.id == Sha256Hex(crypto.digest, u.manifest.payload)
    && Parse(u.manifest.payload) == Some(m)
  }

  lemma ManifestOffered(crypto: Crypto, u: Upload, chunks: seq<string>, m: Manifest, bad: set<Endpoint>,
                        peers: seq<Endpoint>, access: Access, replies: Replies)
    requires Describes(crypto, u, chunks, m) && FewBad(u.manifest, bad, peers)
    requires forall t | t in u.manifest.targets && t !in bad :: SendsManifest(crypto, replies, t, u.manifest.id)
    requires NoCollisions(crypto, peers, access, chunks, u.manifest.payload, replies)
    ensures peers != [] && OffersOnly(peers, ManifestOffers(crypto, u.manifest.id, replies), m)
  {
    var t := GoodTarget(u.manifest, bad, peers);
    assert SendsManifest(crypto, replies, t, u.manifest.id);
    var offers := ManifestOffers(crypto, u.manifest.id, replies);
    assert offers(t) == AcceptedManifest(crypto, u.manifest.id, replies(ForManifest(u.manifest.id), t));
    forall p | p in peers && offers(p).Some? ensures offers(p).value == m {
      var reply := replies(ForManifest(u.manifest.id), p);
      assert offers(p) == AcceptedManifest(crypto, u.manifest.id, reply);
    }
  }

  lemma ChunkOffered(crypto: Crypto, u: Upload, chunks: seq<string>, m: Manifest, bad: set<Endpoint>,
                     peers: seq<Endpoint>, access: Access, replies: Replies, i: nat)
    requires Describes(crypto, u, chunks, m) && i < |chunks| && FewBad(u.parcels[i], bad, peers)
    requires forall t | t in u.parcels[i].targets && t !in bad ::
               ChunkOffers(crypto, access, i, u.parcels[i].id, replies)(t).Some?
    requires NoCollisions(crypto, peers, access, chunks, u.manifest.payload, replies)
    ensures OffersOnly(peers, ChunkOffers(crypto, access, i, m.chunks[i], replies), chunks[i])
  {
    var t := GoodTarget(u.parcels[i], bad, peers);
    assert ChunkOffers(crypto, access, i, u.parcels[i].id, replies)(t).Some?;
  }

  // Every good target offers every piece.
  ghost predicate GoodOffers(crypto: Crypto, u: Upload, access: Access, bad: set<Endpoint>, replies: Replies) {
    && (forall t | t in u.manifest.targets && t !in bad :: SendsManifest(crypto, replies, t, u.manifest.id))
    && (forall i, t | 0 <= i < |u.parcels| && t in u.parcels[i].targets && t !in bad ::
          ChunkOffers(crypto, access, i, u.parcels[i].id, replies)(t).Some?)
  }

  /** Fewer bad peers than targets cannot keep the getter from the file. **/
  lemma FetchFromTargets(crypto: Crypto, get: Config, u: Upload, chunks: seq<string>, m: Manifest, bad: set<Endpoint>,
                         replies: Replies)
    requires Describes(crypto, u, chunks, m) && FewBadFor(u, bad, get.peers)
    requires var access := AccessTo(crypto, get, m);
      && !access.NoAccess? && GoodOffers(crypto, u, access, bad, replies)
      && NoCollisions(crypto, get.peers, access, chunks, u.manifest.payload, replies)
    ensures Fetch(crypto, get, SHARE_PREFIX + u.manifest.id, None, replies) == Wrote(Concat(chunks), true)
    ensures LocallyToo(crypto, get, u.manifest.payload, Concat(chunks), replies)
  {
    var access := AccessTo(crypto, get, m);
    ManifestOffered(crypto, u, chunks, m, bad, get.peers, access, replies);
    forall i | 0 <= i < |chunks|
      ensures OffersOnly(get.peers, ChunkOffers(crypto, access, i, m.chunks[i], replies), chunks[i])
    {
      ChunkOffered(crypto, u, chunks, m, bad, get.peers, access, replies, i);
    }
    var ref := SHARE_PREFIX + u.manifest.id;
    assert ref[|SHARE_PREFIX|..] == u.manifest.id;
    FetchSucceeds(crypto, get, ref, m, chunks, replies);
    forall ref ensures Fetch(crypto, get, ref, Some(u.manifest.payload), replies) == Wrote(Concat(chunks), true) {
      LocalFetchSucceeds(crypto, get, ref, u.manifest.payload, m, chunks, replies);
    }
  }

  // From a local copy of the manifest, wherever it lies, getFile writes these bytes and returns.
  ghost predicate LocallyToo(crypto: Crypto, get: Config, text: string, bytes: string, replies: Replies) {
    forall ref :: Fetch(crypto, get, ref, Some(text), replies) == Wrote(bytes, true)
  }

  /** What UploadOf promises **/

  // AES-GCM opens what it sealed under the same key and vector, and adds a 16-byte tag.
  ghost predicate Opens(crypto: Crypto) {
    forall plain, key, iv ::
      crypto.open(crypto.seal(plain, key, iv), key, iv) == Some(plain) && |crypto.seal(plain, key, iv)| >= 16
  }

  // The getter's private key undoes the putter's public key.
  ghost predicate KeyPair(crypto: Crypto, put: Config, get: Config) {
    && get.privateKey != ""
    && forall blob | |blob| == 44 ::
         && crypto.wrap(put.publicKey, blob) != []
         && crypto.unwrap(get.privateKey, crypto.wrap(put.publicKey, blob)) == Some(blob)
  }

  lemma UploadDescribes(crypto: Crypto, put: Config, get: Config, key: FileKey, name: string, content: string)
    requires Is256Bit(crypto.digest) && put.chunkSize > 0 && key.Valid() && OneWord(name)
    requires put.Encrypts() ==> KeyPair(crypto, put, get)
    ensures Describes(crypto, UploadOf(crypto, put, key, name, content), Split(content, put.chunkSize),
                      ManifestOf(crypto, put, key, Word(name), content))
  {
    var chunks := Split(content, put.chunkSize);
    var m := ManifestOf(crypto, put, key, name, content);
    forall i | 0 <= i < |chunks| ensures Distinct(ChunkParcel(crypto, put, key, chunks[i], i).targets) {
      PlacementIs(crypto.digest, put.peers, ChunkId(crypto, chunks[i]), put.Replicas());
    }
    var id := Sha256Hex(crypto.digest, Serialize(m));
    PlacementIs(crypto.digest, put.peers, "manifest:" + id, put.Replicas());
    ManifestIsPrintable(crypto, put, get, key, Word(name), content);
    assert Renamed(m) == ManifestOf(crypto, put, key, Word(name), content);
    PaddedNameIsTrimmed(m);
  }

  lemma ManifestIsPrintable(crypto: Crypto, put: Config, get: Config, key: FileKey, name: string, content: string)
    requires Is256Bit(crypto.digest) && put.chunkSize > 0 && key.Valid() && IsToken(name)
    requires put.Encrypts() ==> KeyPair(crypto, put, get)
    ensures Printable(ManifestOf(crypto, put, key, name, content))
  {
    var m := ManifestOf(crypto, put, key, name, content);
    var chunks := Split(content, put.chunkSize);
    forall id | id in m.chunks ensures IsToken(id) {
      var i :| 0 <= i < |m.chunks| && m.chunks[i] == id;
      Sha256HexIsChunkId(crypto.digest, chunks[i]);
    }
    if put.Encrypts() {
      HexIsToken(crypto.wrap(put.publicKey, key.key + key.iv));
    }
  }

  lemma HexIsToken(b: Bytes)
    requires b != []
    ensures IsToken(ToHex(b))
  {
    assert forall c | IsHexDigit(c) :: !IsSpace(c);
  }

  // The file key comes out of the manifest as it went in.
  lemma AccessOfUpload(crypto: Crypto, put: Config, get: Config, key: FileKey, name: string, content: string)
    requires put.chunkSize > 0 && key.Valid() && (put.Encrypts() ==> KeyPair(crypto, put, get))
    ensures AccessTo(crypto, get, ManifestOf(crypto, put, key, name, content))
         == if put.Encrypts() then Keyed(key.key, key.iv) else Plain
  {
    if put.Encrypts() {
      var blob := crypto.wrap(put.publicKey, key.key + key.iv);
      HexRoundTrip(blob);
      var both := key.key + key.iv;
      assert both[..32] == key.key && both[32..44] == key.iv;
    }
  }

  /** What delivery leaves **/

  lemma {:induction false} SendManifestToIs(net: Net, targets: seq<Endpoint>, id: string, text: string)
    requires id != "" && SendManifestTo(net, targets, id, text).1
    ensures var net' := SendManifestTo(net, targets, id, text).0;
      && net'.Keys == net.Keys
      && (forall q | q in net :: net'[q].store == net[q].store)
      && (forall t | t in targets :: t in net && id in net'[t].manifests && net'[t].manifests[id] == text)
      && (forall q | q in net && q !in targets :: net'[q] == net[q])
  {
    if targets != [] {
      var t := targets[0];
      assert targets == [t] + targets[1..];
      SendManifestToIs(SendManifest(net, t, id, text), targets[1..], id, text);
    }
  }

  predicate IsManifest(crypto: Crypto, m: Parcel) {
    m.id != "" && m.id == Sha256Hex(crypto.digest, m.payload)
  }

  ghost predicate SameStores(before: Net, after: Net) {
    before.Keys == after.Keys && forall q | q in after :: after[q].store == before[q].store
  }

  // Every target of every parcel has something under its id.
  ghost predicate Present(net: Net, parcels: seq<Parcel>) {
    forall i, t | 0 <= i < |parcels| && t in parcels[i].targets :: t in net && parcels[i].id in net[t].store.files
  }

  // Once an upload has returned, its manifest and something under every chunk id are on their targets.
  lemma UploadLeaves(crypto: Crypto, net: Net, u: Upload)
    requires AllSendable(u.parcels) && IsManifest(crypto, u.manifest)
    requires AllConsistent(net) && NothingEvicted(net, u.parcels, u.dedup) && RunUpload(net, u).1
    ensures DeliverAll(net, u.parcels, u.dedup).1
    ensures var mid := DeliverAll(net, u.parcels, u.dedup).0; var net' := RunUpload(net, u).0;
      && net'.Keys == net.Keys == mid.Keys
      && SameStores(mid, net') && ManifestOnTargets(crypto, net', u.manifest, {}) && Present(net', u.parcels)
  {
    DeliverAllIs(net, u.parcels, u.dedup);
    var mid := DeliverAll(net, u.parcels, u.dedup).0;
    SendManifestToIs(mid, u.manifest.targets, u.manifest.id, u.manifest.payload);
    var net' := RunUpload(net, u).0;
    forall i, t | 0 <= i < |u.parcels| && t in u.parcels[i].targets
      ensures t in net' && u.parcels[i].id in net'[t].store.files
    {
      assert Indexed(mid, u.parcels[i]);
      StoresAgree(mid, t);
      assert u.parcels[i].id in mid[t].store.meta.Keys;
    }
  }

  /** Plaintext **/

  // Whatever a reachable target outside bad has under its id has that hash.
  ghost predicate RightlyStored(crypto: Crypto, net: Net, parcels: seq<Parcel>, bad: set<Endpoint>) {
    forall i, q | 0 <= i < |parcels| && q in parcels[i].targets && q in net && q !in bad
                  && parcels[i].id in net[q].store.files ::
      Sha256Hex(crypto.digest, net[q].store.files[parcels[i].id]) == parcels[i].id
  }

  lemma DeliveredRight(crypto: Crypto, net: Net, net': Net, p: Parcel, recipients: seq<Endpoint>, all: seq<Parcel>,
                       bad: set<Endpoint>)
    requires DeliveredTo(net, net', p, recipients)
    requires Sha256Hex(crypto.digest, p.payload) == p.id && RightlyStored(crypto, net, all, bad)
    ensures RightlyStored(crypto, net', all, bad)
  {
    forall i, q | 0 <= i < |all| && q in all[i].targets && q in net' && q !in bad && all[i].id in net'[q].store.files
      ensures Sha256Hex(crypto.digest, net'[q].store.files[all[i].id]) == all[i].id
    {
      if q in recipients {
        assert StoredAt(net[q], net'[q], p.id, p.payload);
      }
    }
  }

  lemma {:induction false} DeliverAllKeepsRight(crypto: Crypto, net: Net, parcels: seq<Parcel>, all: seq<Parcel>,
                                                bad: set<Endpoint>)
    requires AllSendable(parcels) && AllConsistent(net) && NothingEvicted(net, parcels, true)
    requires DeliverAll(net, parcels, true).1 && HashNamed(crypto, parcels)
    requires RightlyStored(crypto, net, all, bad)
    ensures RightlyStored(crypto, DeliverAll(net, parcels, true).0, all, bad)
  {
    if parcels != [] {
      var p, rest := parcels[0], parcels[1..];
      FirstDelivery(net, parcels, true);
      DeliveredRight(crypto, net, Deliver(net, p, true).0, p, Recipients(net, p, true), all, bad);
      DeliverAllKeepsRight(crypto, Deliver(net, p, true).0, rest, all, bad);
    }
  }

  lemma PlainParcels(crypto: Crypto, put: Config, key: FileKey, chunks: seq<string>)
    requires Is256Bit(crypto.digest) && key.Valid() && put.peers != [] && !put.Encrypts()
    ensures AllSendable(Parcels(crypto, put, key, chunks)) && HashNamed(crypto, Parcels(crypto, put, key, chunks))
    ensures forall i | 0 <= i < |chunks| ::
              var p := Parcels(crypto, put, key, chunks)[i];
              p.payload == chunks[i] && p.id == ChunkId(crypto, chunks[i])
  {
    forall i | 0 <= i < |chunks| ensures Sendable(Parcels(crypto, put, key, chunks)[i]) {
      ChunkParcelIsSendable(crypto, put, key, chunks[i], i);
    }
  }

  // Every target outside bad holds bytes with the right hash, and the manifest.
  ghost predicate PlainlyHeld(crypto: Crypto, net: Net, u: Upload, bad: set<Endpoint>) {
    && ManifestOnTargets(crypto, net, u.manifest, bad)
    && forall i, t | 0 <= i < |u.parcels| && t in u.parcels[i].targets && t !in bad ::
         && t in net && u.parcels[i].id in net[t].store.files
         && Sha256Hex(crypto.digest, net[t].store.files[u.parcels[i].id]) == u.parcels[i].id
  }

  // Parcels that carry the bytes their id is the hash of.
  ghost predicate HashNamed(crypto: Crypto, parcels: seq<Parcel>) {
    forall i | 0 <= i < |parcels| :: Sha256Hex(crypto.digest, parcels[i].payload) == parcels[i].id
  }

  lemma RightIsHeld(crypto: Crypto, mid: Net, net: Net, u: Upload, bad: set<Endpoint>)
    requires RightlyStored(crypto, mid, u.parcels, bad) && ManifestOnTargets(crypto, net, u.manifest, bad)
    requires SameStores(mid, net) && Present(net, u.parcels)
    ensures PlainlyHeld(crypto, net, u, bad)
  {
    forall i, t | 0 <= i < |u.parcels| && t in u.parcels[i].targets && t !in bad
      ensures Sha256Hex(crypto.digest, net[t].store.files[u.parcels[i].id]) == u.parcels[i].id
    {
      assert t in net && net[t].store == mid[t].store;
    }
  }

  lemma HashNamedUploadIsHeld(crypto: Crypto, net: Net, u: Upload, bad: set<Endpoint>)
    requires AllSendable(u.parcels) && HashNamed(crypto, u.parcels) && u.dedup && IsManifest(crypto, u.manifest)
    requires AllConsistent(net) && NothingEvicted(net, u.parcels, true)
    requires RightlyStored(crypto, net, u.parcels, bad) && RunUpload(net, u).1
    ensures PlainlyHeld(crypto, RunUpload(net, u).0, u, bad)
  {
    UploadLeaves(crypto, net, u);
    DeliverAllKeepsRight(crypto, net, u.parcels, u.parcels, bad);
    RightIsHeld(crypto, DeliverAll(net, u.parcels, true).0, RunUpload(net, u).0, u, bad);
  }

  /** After a plaintext putFile that returns, targets that held nothing wrong under its ids hold every chunk. **/
  lemma PlainUploadIsHeld(crypto: Crypto, put: Config, key: FileKey, name: string, content: string, net: Net,
                          bad: set<Endpoint>)
    requires Is256Bit(crypto.digest) && key.Valid() && put.peers != [] && put.chunkSize > 0 && !put.Encrypts()
    requires var u := UploadOf(crypto, put, key, name, content);
      && AllConsistent(net) && NothingEvicted(net, u.parcels, true)
      && RightlyStored(crypto, net, u.parcels, bad) && RunUpload(net, u).1
    ensures var u := UploadOf(crypto, put, key, name, content); PlainlyHeld(crypto, RunUpload(net, u).0, u, bad)
  {
    PlainParcels(crypto, put, key, Split(content, put.chunkSize));
    var u := UploadOf(crypto, put, key, name, content);
    Sha256HexIsChunkId(crypto.digest, u.manifest.payload);
    HashNamedUploadIsHeld(crypto, net, u, bad);
  }

  lemma PlainServes(crypto: Crypto, net: Net, u: Upload, bad: set<Endpoint>, i: nat, t: Endpoint)
    requires PlainlyHeld(crypto, net, u, bad) && i < |u.parcels| && t in u.parcels[i].targets && t !in bad
    ensures ServesRight(crypto, Plain, net, t, i, u.parcels[i].id)
  {
    var data := net[t].store.files[u.parcels[i].id];
    assert Opened(crypto, Plain, data, i) == Some(data);
  }

  // The file is held whenever any of the peers is asked for any of it.
  ghost predicate HeldThroughout(crypto: Crypto, at: Moments, u: Upload, bad: set<Endpoint>) {
    forall ask, p :: PlainlyHeld(crypto, at(ask, p), u, bad) && Sized(at(ask, p))
  }

  lemma HeldIsOffered(crypto: Crypto, u: Upload, at: Moments, bad: set<Endpoint>, replies: Replies)
    requires HeldThroughout(crypto, at, u, bad) && HonestAt(at, bad, replies)
    ensures GoodOffers(crypto, u, Plain, bad, replies)
  {
    forall t | t in u.manifest.targets && t !in bad ensures SendsManifest(crypto, replies, t, u.manifest.id) {
      var net := at(ForManifest(u.manifest.id), t);
      assert PlainlyHeld(crypto, net, u, bad) && Sized(net);
      GoodTargetOffersManifest(crypto, net, bad, replies, t, u.manifest);
    }
    forall i, t | 0 <= i < |u.parcels| && t in u.parcels[i].targets && t !in bad
      ensures ChunkOffers(crypto, Plain, i, u.parcels[i].id, replies)(t).Some?
    {
      var net := at(ForChunk(i, u.parcels[i].id), t);
      assert PlainlyHeld(crypto, net, u, bad) && Sized(net);
      PlainServes(crypto, net, u, bad, i, t);
      GoodTargetOffersChunk(crypto, net, replies, Plain, t, i, u.parcels[i].id);
    }
  }

  /**
   * While the file is held on its targets, getFile on its share id writes exactly the original bytes and returns, even
   * if fewer peers than an object has targets are down or answer arbitrary bytes, whatever the order of the getter's
   * peers, and although the peers' other contents may change from one request to the next.
   */
  lemma HeldFileIsRetrieved(crypto: Crypto, put: Config, get: Config, key: FileKey, name: string, content: string,
                            at: Moments, bad: set<Endpoint>, replies: Replies)
    requires Is256Bit(crypto.digest) && key.Valid() && put.chunkSize > 0 && !put.Encrypts() && OneWord(name)
    requires var u := UploadOf(crypto, put, key, name, content);
      && HeldThroughout(crypto, at, u, bad) && FewBadFor(u, bad, get.peers) && HonestAt(at, bad, replies)
      && NoCollisions(crypto, get.peers, Plain, Split(content, put.chunkSize), u.manifest.payload, replies)
    ensures Fetch(crypto, get, SHARE_PREFIX + UploadOf(crypto, put, key, name, content).manifest.id, None, replies)
         == Wrote(content, true)
    ensures LocallyToo(crypto, get, UploadOf(crypto, put, key, name, content).manifest.payload, content, replies)
  {
    var u := UploadOf(crypto, put, key, name, content);
    UploadDescribes(crypto, put, get, key, name, content);
    AccessOfUpload(crypto, put, get, key, Word(name), content);
    HeldIsOffered(crypto, u, at, bad, replies);
    FetchFromTargets(crypto, get, u, Split(content, put.chunkSize), ManifestOf(crypto, put, key, Word(name), content),
                     bad, replies);
    SplitIs(content, put.chunkSize);
  }

  /** Put, then get: the plaintext round trip. **/
  lemma PlainRoundTrip(crypto: Crypto, put: Config, get: Config, key: FileKey, name: string, content: string,
                       net: Net, bad: set<Endpoint>, replies: Replies)
    requires Is256Bit(crypto.digest) && key.Valid() && put.peers != [] && put.chunkSize > 0 && !put.Encrypts()
    requires OneWord(name)
    requires var u := UploadOf(crypto, put, key, name, content);
      && AllConsistent(net) && NothingEvicted(net, u.parcels, true)
      && RightlyStored(crypto, net, u.parcels, bad) && RunUpload(net, u).1 && FewBadFor(u, bad, get.peers)
      && Honest(RunUpload(net, u).0, bad, replies) && Sized(RunUpload(net, u).0)
      && NoCollisions(crypto, get.peers, Plain, Split(content, put.chunkSize), u.manifest.payload, replies)
    ensures Fetch(crypto, get, SHARE_PREFIX + UploadOf(crypto, put, key, name, content).manifest.id, None, replies)
         == Wrote(content, true)
    ensures LocallyToo(crypto, get, UploadOf(crypto, put, key, name, content).manifest.payload, content, replies)
  {
    var net' := RunUpload(net, UploadOf(crypto, put, key, name, content)).0;
    PlainUploadIsHeld(crypto, put, key, name, content, net, bad);
    HeldFileIsRetrieved(crypto, put, get, key, name, content, Always(net'), bad, replies);
  }
}
