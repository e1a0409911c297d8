/**
 * What getFile makes of whatever the peers answer (src/core/dss/dss_client.cpp). A peer's reply to a request is any
 * string of bytes, or no connection at all.
 */
module Download {
  import opened Basics
  import opened Kademlia
  import opened Routing
  import opened Chunking
  import opened Manifest
  import opened Upload
  import Framing

  datatype Ask = ForManifest(id: string) | ForChunk(index: nat, id: string)

  // None: the connection fails.
  type Replies = (Ask, Endpoint) -> Option<string>

  const SHARE_PREFIX: string := "dss://file/"

  // normalize_manifest_id
  function Normalize(ref: string): string {
    if SHARE_PREFIX <= ref then ref[|SHARE_PREFIX|..] else ref
  }

  /** Whom to ask **/

  function Extend(candidates: seq<Endpoint>, peers: seq<Endpoint>): seq<Endpoint>
    decreases peers
  {
    if peers == [] then candidates
    else Extend(if peers[0] in candidates then candidates else candidates + [peers[0]], peers[1..])
  }

  function Candidates(crypto: Crypto, cfg: Config, key: string): seq<Endpoint> {
    Extend(Placement(crypto.digest, cfg.peers, key, if cfg.desiredReplicas <= 0 then 1 else cfg.desiredReplicas),
           cfg.peers)
  }

  lemma {:induction false} ExtendIs(candidates: seq<Endpoint>, peers: seq<Endpoint>)
    requires Distinct(candidates)
    ensures candidates <= Extend(candidates, peers) && Distinct(Extend(candidates, peers))
    ensures forall p :: p in Extend(candidates, peers) <==> p in candidates || p in peers
    decreases peers
  {
    if peers != [] {
      assert peers == [peers[0]] + peers[1..];
      if peers[0] !in candidates {
        DistinctSnoc(candidates, peers[0]);
      }
      ExtendIs(if peers[0] in candidates then candidates else candidates + [peers[0]], peers[1..]);
    }
  }

  /** The peers responsible come first, in order; then the other configured peers; each peer once. **/
  lemma CandidatesCoverPeers(crypto: Crypto, cfg: Config, key: string)
    ensures Placement(crypto.digest, cfg.peers, key, if cfg.desiredReplicas <= 0 then 1 else cfg.desiredReplicas)
         <= Candidates(crypto, cfg, key)
    ensures Distinct(Candidates(crypto, cfg, key))
    ensures forall p :: p in Candidates(crypto, cfg, key) <==> p in cfg.peers
  {
    var replicas := if cfg.desiredReplicas <= 0 then 1 else cfg.desiredReplicas;
    PlacementIs(crypto.digest, cfg.peers, key, replicas);
    ExtendIs(Placement(crypto.digest, cfg.peers, key, replicas), cfg.peers);
  }

  /** Asking in turn **/

  // The first candidate's offer that is worth anything.
  function FirstOf<T>(candidates: seq<Endpoint>, offer: Endpoint -> Option<T>): Option<T> {
    if candidates == [] then None
    else if offer(candidates[0]).Some? then offer(candidates[0])
    else FirstOf(candidates[1..], offer)
  }

  // Candidate i is the first to offer something.
  ghost predicate OffersFirst<T>(candidates: seq<Endpoint>, offer: Endpoint -> Option<T>, i: nat) {
    i < |candidates| && offer(candidates[i]).Some? && forall j | 0 <= j < i :: offer(candidates[j]).None?
  }

  /** It is the first candidate to offer anything whose offer is taken. **/
  lemma {:induction false} FirstOffer<T>(candidates: seq<Endpoint>, offer: Endpoint -> Option<T>, i: nat)
    requires OffersFirst(candidates, offer, i)
    ensures FirstOf(candidates, offer) == offer(candidates[i])
  {
    if i > 0 {
      assert OffersFirst(candidates[1..], offer, i - 1) by {
        assert forall j | 0 <= j < i - 1 :: candidates[1..][j] == candidates[j + 1];
      }
      FirstOffer(candidates[1..], offer, i - 1);
    }
  }

  lemma {:induction false} FirstOfIs<T>(candidates: seq<Endpoint>, offer: Endpoint -> Option<T>)
    ensures FirstOf(candidates, offer).Some? ==> exists p :: p in candidates && offer(p) == FirstOf(candidates, offer)
    ensures FirstOf(candidates, offer).None? ==> forall p | p in candidates :: offer(p).None?
  {
    if candidates != [] {
      assert candidates == [candidates[0]] + candidates[1..];
      FirstOfIs(candidates[1..], offer);
    }
  }

  // Items i to n, up to the first that is not found.
  function Collect(found: nat -> Option<string>, i: nat, n: nat): (seq<string>, bool)
    requires i <= n
    decreases n - i
  {
    if i == n then ([], true)
    else if found(i).None? then ([], false)
    else
      var (rest, ok) := Collect(found, i + 1, n);
      ([found(i).value] + rest, ok)
  }

  // The items in front, and whether there are no others.
  ghost predicate IsCollected(found: nat -> Option<string>, i: nat, n: nat, blocks: seq<string>, ok: bool) {
    && i + |blocks| <= n
    && (forall k | 0 <= k < |blocks| :: found(i + k) == Some(blocks[k]))
    && (if ok then i + |blocks| == n else i + |blocks| < n && found(i + |blocks|) == None)
  }

  lemma {:induction false} CollectIs(found: nat -> Option<string>, i: nat, n: nat)
    requires i <= n
    ensures IsCollected(found, i, n, Collect(found, i, n).0, Collect(found, i, n).1)
    decreases n - i
  {
    if i < n && found(i).Some? {
      CollectIs(found, i + 1, n);
      var blocks := Collect(found, i, n).0;
      assert forall k | 1 <= k < |blocks| :: found(i + 1 + (k - 1)) == Some(blocks[k]);
    }
  }

  /** Manifest **/

  // A reply that carries the manifest asked for.
  function AcceptedManifest(crypto: Crypto, id: string, reply: Option<string>): Option<Manifest> {
    if reply.None? then None
    else
      match Framing.DataOf(reply.value)
      case None => None
      case Some(text) => if Sha256Hex(crypto.digest, text) != id then None else Parse(text)
  }

  function ManifestOffers(crypto: Crypto, id: string, replies: Replies): Endpoint -> Option<Manifest> {
    p => AcceptedManifest(crypto, id, replies(ForManifest(id), p))
  }

  // local: the text of the file the reference names, if there is one.
  function FetchManifest(crypto: Crypto, cfg: Config, ref: string, local: Option<string>, replies: Replies):
    Option<Manifest>
  {
    if local.Some? then Parse(local.value)
    else
      var id := Normalize(ref);
      FirstOf(Candidates(crypto, cfg, "manifest:" + id), ManifestOffers(crypto, id, replies))
  }

  /** Key **/

  datatype Access = NoAccess | Plain | Keyed(key: Bytes, iv: Bytes)

  function AccessTo(crypto: Crypto, cfg: Config, m: Manifest): Access {
    if !(m.encrypted && m.encryptedKeyHex != "") then Plain
    else if cfg.privateKey == "" then NoAccess
    else
      match FromHex(m.encryptedKeyHex)
      case None => NoAccess
      case Some(blob) =>
        match crypto.unwrap(cfg.privateKey, blob)
        case None => NoAccess
        case Some(out) => if |out| < 44 then NoAccess else Keyed(out[..32], out[32..44])
  }

  // The getter's private key makes this of the key in the manifest.
  ghost predicate Unlocks(crypto: Crypto, cfg: Config, m: Manifest, key: Bytes, iv: Bytes) {
    && cfg.privateKey != "" && |key| == 32 && |iv| == 12
    && exists blob, extra :: FromHex(m.encryptedKeyHex) == Some(blob)
                             && crypto.unwrap(cfg.privateKey, blob) == Some(key + iv + extra)
  }

  predicate HasKey(m: Manifest) {
    m.encrypted && m.encryptedKeyHex != ""
  }

  // The manifest has a key that the getter cannot make anything of.
  ghost predicate Locked(crypto: Crypto, cfg: Config, m: Manifest) {
    HasKey(m) && forall key, iv :: !Unlocks(crypto, cfg, m, key, iv)
  }

  /** What the getter goes by: no key if there is none, the key if it can be had, and otherwise nothing. **/
  lemma AccessIs(crypto: Crypto, cfg: Config, m: Manifest)
    ensures AccessTo(crypto, cfg, m) == Plain <==> !HasKey(m)
    ensures forall key, iv ::
              AccessTo(crypto, cfg, m) == Keyed(key, iv) <==> HasKey(m) && Unlocks(crypto, cfg, m, key, iv)
    ensures AccessTo(crypto, cfg, m) == NoAccess <==> Locked(crypto, cfg, m)
  {
    if HasKey(m) && AccessTo(crypto, cfg, m).Keyed? {
      var blob := FromHex(m.encryptedKeyHex).value;
      var out := crypto.unwrap(cfg.privateKey, blob).value;
      assert out == out[..32] + out[32..44] + out[44..];
      assert Unlocks(crypto, cfg, m, out[..32], out[32..44]);
    }
    forall key, iv | HasKey(m) && Unlocks(crypto, cfg, m, key, iv) ensures AccessTo(crypto, cfg, m) == Keyed(key, iv) {
      var blob, extra :| FromHex(m.encryptedKeyHex) == Some(blob)
                         && crypto.unwrap(cfg.privateKey, blob) == Some(key + iv + extra);
      var out := key + iv + extra;
      assert out[..32] == key && out[32..44] == iv;
    }
  }

  /** A manifest is asked for by its id, with the share prefix or without. **/
  lemma PrefixMakesNoDifference(crypto: Crypto, cfg: Config, id: string, replies: Replies)
    requires !(SHARE_PREFIX <= id)
    ensures Fetch(crypto, cfg, id, None, replies) == Fetch(crypto, cfg, SHARE_PREFIX + id, None, replies)
  {
    assert (SHARE_PREFIX + id)[|SHARE_PREFIX|..] == id;
  }

  /** Chunks **/

  function Opened(crypto: Crypto, access: Access, data: string, i: nat): Option<string> {
    match access
    case NoAccess => None
    case Plain => Some(data)
    case Keyed(key, iv) =>
      if |data| < 16 || DeriveIv(iv, i).None? then None else crypto.open(data, key, DeriveIv(iv, i).value)
  }

  // What reaches the output file from a reply, if anything.
  function Accepted(crypto: Crypto, access: Access, i: nat, id: string, reply: Option<string>): (r: Option<string>)
    ensures r.Some? ==> Sha256Hex(crypto.digest, r.value) == id
  {
    if reply.None? then None
    else
      match Framing.DataOf(reply.value)
      case None => None
      case Some(data) =>
        match Opened(crypto, access, data, i)
        case None => None
        case Some(plain) => if Sha256Hex(crypto.digest, plain) != id then None else Some(plain)
  }

  function ChunkOffers(crypto: Crypto, access: Access, i: nat, id: string, replies: Replies):
    Endpoint -> Option<string>
  {
    p => Accepted(crypto, access, i, id, replies(ForChunk(i, id), p))
  }

  /** Bytes that leave no room for a ciphertext and its 16-byte tag are never accepted under a key. **/
  lemma ShortIsNotAccepted(crypto: Crypto, key: Bytes, iv: Bytes, i: nat, id: string, reply: string)
    requires var data := Framing.DataOf(reply); data.Some? ==> |data.value| < 16
    ensures Accepted(crypto, Keyed(key, iv), i, id, Some(reply)) == None
  {
  }

  // What is found for each entry of the manifest.
  function Found(crypto: Crypto, cfg: Config, access: Access, ids: seq<string>, replies: Replies): nat -> Option<string>
  {
    (i: nat) =>
      if i < |ids|
      then FirstOf(Candidates(crypto, cfg, ids[i]), ChunkOffers(crypto, access, i, ids[i], replies))
      else None
  }

  // Refused: an exception before the output file is opened. Otherwise what was written, and whether getFile returned.
  datatype Outcome = Refused | Wrote(bytes: string, complete: bool)

  function Fetch(crypto: Crypto, cfg: Config, ref: string, local: Option<string>, replies: Replies): Outcome {
    if cfg.peers == [] then Refused
    else
      match FetchManifest(crypto, cfg, ref, local, replies)
      case None => Refused
      case Some(m) =>
        var access := AccessTo(crypto, cfg, m);
        if access.NoAccess? then Refused
        else
          var (blocks, ok) := Collect(Found(crypto, cfg, access, m.chunks, replies), 0, |m.chunks|);
          Wrote(Concat(blocks), ok)
  }

  /** Safety, whatever the peers answer **/

  // The blocks hash to the first entries of the manifest.
  ghost predicate Genuine(crypto: Crypto, blocks: seq<string>, ids: seq<string>) {
    |blocks| <= |ids| && forall k | 0 <= k < |blocks| :: Sha256Hex(crypto.digest, blocks[k]) == ids[k]
  }

  lemma FoundIsGenuine(crypto: Crypto, cfg: Config, access: Access, ids: seq<string>, i: nat, replies: Replies)
    requires i < |ids| && Found(crypto, cfg, access, ids, replies)(i).Some?
    ensures Sha256Hex(crypto.digest, Found(crypto, cfg, access, ids, replies)(i).value) == ids[i]
  {
    var candidates, offers := Candidates(crypto, cfg, ids[i]), ChunkOffers(crypto, access, i, ids[i], replies);
    FirstOfIs(candidates, offers);
    var p :| p in candidates && offers(p) == FirstOf(candidates, offers);
    assert offers(p) == Accepted(crypto, access, i, ids[i], replies(ForChunk(i, ids[i]), p));
  }

  lemma CollectedHash(crypto: Crypto, found: nat -> Option<string>, ids: seq<string>, blocks: seq<string>, ok: bool)
    requires IsCollected(found, 0, |ids|, blocks, ok)
    requires forall i | 0 <= i < |ids| && found(i).Some? :: Sha256Hex(crypto.digest, found(i).value) == ids[i]
    ensures Genuine(crypto, blocks, ids) && (ok <==> |blocks| == |ids|)
  {
    forall k | 0 <= k < |blocks| ensures Sha256Hex(crypto.digest, blocks[k]) == ids[k] {
      assert found(0 + k) == Some(blocks[k]);
    }
  }

  lemma CollectedAreGenuine(crypto: Crypto, cfg: Config, access: Access, ids: seq<string>, replies: Replies)
    ensures var (blocks, ok) := Collect(Found(crypto, cfg, access, ids, replies), 0, |ids|);
      Genuine(crypto, blocks, ids) && (ok <==> |blocks| == |ids|)
  {
    var found := Found(crypto, cfg, access, ids, replies);
    forall i | 0 <= i < |ids| && found(i).Some? ensures Sha256Hex(crypto.digest, found(i).value) == ids[i] {
      FoundIsGenuine(crypto, cfg, access, ids, i, replies);
    }
    CollectIs(found, 0, |ids|);
    CollectedHash(crypto, found, ids, Collect(found, 0, |ids|).0, Collect(found, 0, |ids|).1);
  }

  lemma AcceptedManifestIsGenuine(crypto: Crypto, id: string, reply: Option<string>) returns (text: string)
    requires AcceptedManifest(crypto, id, reply).Some?
    ensures Sha256Hex(crypto.digest, text) == id && Parse(text) == AcceptedManifest(crypto, id, reply)
  {
    text := Framing.DataOf(reply.value).value;
  }

  lemma NetworkManifestIsGenuine(crypto: Crypto, cfg: Config, ref: string, replies: Replies) returns (text: string)
    requires FetchManifest(crypto, cfg, ref, None, replies).Some?
    ensures Sha256Hex(crypto.digest, text) == Normalize(ref)
    ensures Parse(text) == FetchManifest(crypto, cfg, ref, None, replies)
  {
    var id := Normalize(ref);
    var offers, candidates := ManifestOffers(crypto, id, replies), Candidates(crypto, cfg, "manifest:" + id);
    FirstOfIs(candidates, offers);
    var p :| p in candidates && offers(p) == FirstOf(candidates, offers);
    assert offers(p) == AcceptedManifest(crypto, id, replies(ForManifest(id), p));
    text := AcceptedManifestIsGenuine(crypto, id, replies(ForManifest(id), p));
  }

  // The manifest text a download went by: the local file's, or one with the hash asked for.
  ghost predicate GoesBy(crypto: Crypto, ref: string, local: Option<string>, text: string) {
    Parse(text).Some? && if local.Some? then text == local.value else Sha256Hex(crypto.digest, text) == Normalize(ref)
  }

  /**
   * Whatever the peers answer, what getFile writes is a concatenation of blocks whose hashes are the first entries of a
   * manifest, all of them if it returns and not all if it throws; and a manifest taken from the network has the hash
   * that was asked for.
   */
  lemma FetchIsSafe(crypto: Crypto, cfg: Config, ref: string, local: Option<string>, replies: Replies)
    returns (text: string, blocks: seq<string>)
    requires Fetch(crypto, cfg, ref, local, replies).Wrote?
    ensures GoesBy(crypto, ref, local, text) && Genuine(crypto, blocks, Parse(text).value.chunks)
    ensures var r := Fetch(crypto, cfg, ref, local, replies);
      r.bytes == Concat(blocks) && (r.complete <==> |blocks| == |Parse(text).value.chunks|)
  {
    if local.Some? {
      text := local.value;
    } else {
      text := NetworkManifestIsGenuine(crypto, cfg, ref, replies);
    }
    var m := Parse(text).value;
    var access := AccessTo(crypto, cfg, m);
    CollectedAreGenuine(crypto, cfg, access, m.chunks, replies);
    blocks := Collect(Found(crypto, cfg, access, m.chunks, replies), 0, |m.chunks|).0;
  }

  /** Liveness **/

  /** A chunk is found if and only if some configured peer, wherever it stands, serves acceptable bytes. **/
  lemma ChunkFoundIff(crypto: Crypto, cfg: Config, access: Access, ids: seq<string>, i: nat, replies: Replies)
    requires i < |ids|
    ensures Found(crypto, cfg, access, ids, replies)(i).Some?
       <==> exists p :: p in cfg.peers && ChunkOffers(crypto, access, i, ids[i], replies)(p).Some?
  {
    CandidatesCoverPeers(crypto, cfg, ids[i]);
    FirstOfIs(Candidates(crypto, cfg, ids[i]), ChunkOffers(crypto, access, i, ids[i], replies));
  }

  /**
   * A chunk is taken from the first of the peers responsible for its hash that offers acceptable bytes, and a manifest
   * from the first of those responsible for "manifest:" and its hash.
   */
  lemma ResponsiblePeersComeFirst(crypto: Crypto, cfg: Config, access: Access, ids: seq<string>, i: nat, ref: string,
                                  replies: Replies, k: nat)
    requires i < |ids|
    ensures var r := if cfg.desiredReplicas <= 0 then 1 else cfg.desiredReplicas;
      && (var offers := ChunkOffers(crypto, access, i, ids[i], replies);
          var targets := Placement(crypto.digest, cfg.peers, ids[i], r);
          OffersFirst(targets, offers, k) ==> Found(crypto, cfg, access, ids, replies)(i) == offers(targets[k]))
      && (var offers := ManifestOffers(crypto, Normalize(ref), replies);
          var targets := Placement(crypto.digest, cfg.peers, "manifest:" + Normalize(ref), r);
          OffersFirst(targets, offers, k) ==>
            FetchManifest(crypto, cfg, ref, None, replies) == offers(targets[k]))
  {
    FirstTarget(crypto, cfg, ids[i], ChunkOffers(crypto, access, i, ids[i], replies), k);
    FirstTarget(crypto, cfg, "manifest:" + Normalize(ref), ManifestOffers(crypto, Normalize(ref), replies), k);
  }

  lemma FirstTarget<T>(crypto: Crypto, cfg: Config, key: string, offer: Endpoint -> Option<T>, k: nat)
    ensures var targets := Placement(crypto.digest, cfg.peers, key,
                                     if cfg.desiredReplicas <= 0 then 1 else cfg.desiredReplicas);
      OffersFirst(targets, offer, k) ==> FirstOf(Candidates(crypto, cfg, key), offer) == offer(targets[k])
  {
    CandidatesCoverPeers(crypto, cfg, key);
    var targets := Placement(crypto.digest, cfg.peers, key,
                             if cfg.desiredReplicas <= 0 then 1 else cfg.desiredReplicas);
    if OffersFirst(targets, offer, k) {
      assert OffersFirst(Candidates(crypto, cfg, key), offer, k);
      FirstOffer(Candidates(crypto, cfg, key), offer, k);
    }
  }

  // Some peer offers the thing, and nothing else is offered.
  ghost predicate OffersOnly<T>(peers: seq<Endpoint>, offer: Endpoint -> Option<T>, thing: T) {
    && (exists p :: p in peers && offer(p).Some?)
    && (forall p | p in peers && offer(p).Some? :: offer(p).value == thing)
  }

  lemma OfferedIsFound<T>(crypto: Crypto, cfg: Config, key: string, offer: Endpoint -> Option<T>, thing: T)
    requires OffersOnly(cfg.peers, offer, thing)
    ensures FirstOf(Candidates(crypto, cfg, key), offer) == Some(thing)
  {
    CandidatesCoverPeers(crypto, cfg, key);
    FirstOfIs(Candidates(crypto, cfg, key), offer);
  }

  lemma {:induction false} CollectAll(found: nat -> Option<string>, i: nat, chunks: seq<string>)
    requires i <= |chunks| && forall k | i <= k < |chunks| :: found(k) == Some(chunks[k])
    ensures Collect(found, i, |chunks|) == (chunks[i..], true)
    decreases |chunks| - i
  {
    if i < |chunks| {
      CollectAll(found, i + 1, chunks);
      assert [chunks[i]] + chunks[i + 1..] == chunks[i..];
    }
  }

  lemma FetchGiven(crypto: Crypto, get: Config, m: Manifest, access: Access, ref: string, local: Option<string>,
                   replies: Replies)
    requires get.peers != [] && FetchManifest(crypto, get, ref, local, replies) == Some(m)
    requires AccessTo(crypto, get, m) == access && !access.NoAccess?
    ensures var (blocks, ok) := Collect(Found(crypto, get, access, m.chunks, replies), 0, |m.chunks|);
      Fetch(crypto, get, ref, local, replies) == Wrote(Concat(blocks), ok)
  {
  }

  lemma OfferedAreCollected(crypto: Crypto, cfg: Config, access: Access, ids: seq<string>, chunks: seq<string>,
                            replies: Replies)
    requires |chunks| == |ids|
    requires forall i | 0 <= i < |chunks| ::
               OffersOnly(cfg.peers, ChunkOffers(crypto, access, i, ids[i], replies), chunks[i])
    ensures Collect(Found(crypto, cfg, access, ids, replies), 0, |ids|) == (chunks, true)
  {
    var found := Found(crypto, cfg, access, ids, replies);
    forall i | 0 <= i < |chunks| ensures found(i) == Some(chunks[i]) {
      OfferedIsFound(crypto, cfg, ids[i], ChunkOffers(crypto, access, i, ids[i], replies), chunks[i]);
    }
    CollectAll(found, 0, chunks);
    assert chunks[0..] == chunks;
  }

  /** Where every piece is offered, and nothing else passes for it, getFile writes the file and returns. **/
  lemma FetchSucceeds(crypto: Crypto, cfg: Config, ref: string, m: Manifest, chunks: seq<string>, replies: Replies)
    requires cfg.peers != [] && OffersOnly(cfg.peers, ManifestOffers(crypto, Normalize(ref), replies), m)
    requires !AccessTo(crypto, cfg, m).NoAccess? && |chunks| == |m.chunks|
    requires forall i | 0 <= i < |chunks| ::
               OffersOnly(cfg.peers, ChunkOffers(crypto, AccessTo(crypto, cfg, m), i, m.chunks[i], replies), chunks[i])
    ensures Fetch(crypto, cfg, ref, None, replies) == Wrote(Concat(chunks), true)
  {
    var id, access := Normalize(ref), AccessTo(crypto, cfg, m);
    OfferedIsFound(crypto, cfg, "manifest:" + id, ManifestOffers(crypto, id, replies), m);
    OfferedAreCollected(crypto, cfg, access, m.chunks, chunks, replies);
    FetchGiven(crypto, cfg, m, access, ref, None, replies);
  }

  /**
   * A local manifest is used as it stands, whatever the reference is and whatever the peers have to say about
   * manifests: where every piece is offered, and nothing else passes for it, getFile writes the file and returns.
   */
  lemma LocalFetchSucceeds(crypto: Crypto, cfg: Config, ref: string, text: string, m: Manifest, chunks: seq<string>,
                           replies: Replies)
    requires cfg.peers != [] && Parse(text) == Some(m)
    requires !AccessTo(crypto, cfg, m).NoAccess? && |chunks| == |m.chunks|
    requires forall i | 0 <= i < |chunks| ::
               OffersOnly(cfg.peers, ChunkOffers(crypto, AccessTo(crypto, cfg, m), i, m.chunks[i], replies), chunks[i])
    ensures Fetch(crypto, cfg, ref, Some(text), replies) == Wrote(Concat(chunks), true)
  {
    var access := AccessTo(crypto, cfg, m);
    OfferedAreCollected(crypto, cfg, access, m.chunks, chunks, replies);
    FetchGiven(crypto, cfg, m, access, ref, Some(text), replies);
  }

  /** In particular the text of any printable manifest. **/
  lemma LocalManifestIsUsed(crypto: Crypto, cfg: Config, ref: string, m: Manifest, chunks: seq<string>,
                            replies: Replies)
    requires cfg.peers != [] && Printable(m) && !Locked(crypto, cfg, m) && |chunks| == |m.chunks|
    requires forall i | 0 <= i < |chunks| ::
               OffersOnly(cfg.peers, ChunkOffers(crypto, AccessTo(crypto, cfg, m), i, m.chunks[i], replies), chunks[i])
    ensures Fetch(crypto, cfg, ref, Some(Serialize(m)), replies) == Wrote(Concat(chunks), true)
  {
    RoundTripIff(m);
    AccessIs(crypto, cfg, m);
    LocalFetchSucceeds(crypto, cfg, ref, Serialize(m), m, chunks, replies);
  }

  /** A local manifest is refused exactly if nobody could be asked, it does not parse, or its key cannot be had. **/
  lemma LocalRefusedIff(crypto: Crypto, cfg: Config, ref: string, text: string, replies: Replies)
    ensures Fetch(crypto, cfg, ref, Some(text), replies) == Refused
       <==> cfg.peers == [] || Parse(text) == None || Locked(crypto, cfg, Parse(text).value)
  {
    if Parse(text).Some? {
      AccessIs(crypto, cfg, Parse(text).value);
    }
  }

  lemma {:induction false} CollectStops(found: nat -> Option<string>, s: nat, i: nat, n: nat)
    requires s <= i < n && found(i) == None
    ensures !Collect(found, s, n).1
    decreases n - s
  {
    if s < i && found(s).Some? {
      CollectStops(found, s + 1, i, n);
    }
  }

  // A chunk that no configured peer offers makes getFile throw.
  lemma UnofferedChunkFails(crypto: Crypto, get: Config, m: Manifest, access: Access, i: nat, ref: string,
                            replies: Replies)
    requires get.peers != [] && FetchManifest(crypto, get, ref, None, replies) == Some(m) && i < |m.chunks|
    requires AccessTo(crypto, get, m) == access && !access.NoAccess?
    requires forall p | p in get.peers :: ChunkOffers(crypto, access, i, m.chunks[i], replies)(p) == None
    ensures Fetch(crypto, get, ref, None, replies).Wrote? && !Fetch(crypto, get, ref, None, replies).complete
  {
    FetchGiven(crypto, get, m, access, ref, None, replies);
    ChunkFoundIff(crypto, get, access, m.chunks, i, replies);
    CollectStops(Found(crypto, get, access, m.chunks, replies), 0, i, |m.chunks|);
  }
}
