/**
 * What getFile makes of any manifest, the one uploaded or another one read from its text, where the peers hold exactly
 * what an upload to new peers has left: for each id the last parcel that was sent under it.
 */
module Retrieval {
  import opened Basics
  import opened Store
  import opened Kademlia
  import opened Routing
  import opened Chunking
  import opened Manifest
  import opened Peers
  import opened Upload
  import opened Download
  import opened RoundTrip
  import opened EncryptedRoundTrip
  import opened Deduplication
  import Framing

  // What the last parcel with this id gives as piece i.
  function Piece(crypto: Crypto, access: Access, parcels: seq<Parcel>, i: nat, id: string): Option<string> {
    match LastWith(parcels, id)
    case None => None
    case Some(k) =>
      match Opened(crypto, access, parcels[k].payload, i)
      case None => None
      case Some(plain) => if Sha256Hex(crypto.digest, plain) == id then Some(plain) else None
  }

  function Pieces(crypto: Crypto, access: Access, parcels: seq<Parcel>, ids: seq<string>): nat -> Option<string> {
    (i: nat) => if i < |ids| then Piece(crypto, access, parcels, i, ids[i]) else None
  }

  // The outcome of getFile: the pieces in order, up to the first that is not to be had.
  function Retrieved(crypto: Crypto, cfg: Config, parcels: seq<Parcel>, manifest: Option<Manifest>): Outcome {
    match manifest
    case None => Refused
    case Some(m) =>
      var access := AccessTo(crypto, cfg, m);
      if access.NoAccess? then Refused
      else
        var (blocks, ok) := Collect(Pieces(crypto, access, parcels, m.chunks), 0, |m.chunks|);
        Wrote(Concat(blocks), ok)
  }

  // Every target of a parcel, and nobody else, has the last parcel with its id.
  ghost predicate HoldsLast(net: Net, parcels: seq<Parcel>) {
    forall q, id | q in net :: Final(map[], net[q].store.files, parcels, q, id)
  }

  // All targets can be asked.
  ghost predicate Askable(net: Net, peers: seq<Endpoint>, parcels: seq<Parcel>) {
    && (forall p | p in peers :: p in net)
    && forall i | 0 <= i < |parcels| :: exists t :: t in parcels[i].targets && t in peers
  }

  /** From peers to pieces **/

  lemma LastIsOffered(crypto: Crypto, access: Access, net: Net, parcels: seq<Parcel>, i: nat, id: string, p: Endpoint,
                      replies: Replies)
    requires p in net && HoldsLast(net, parcels) && Sized(net) && Honest(net, {}, replies)
    ensures var k := LastWith(parcels, id);
      ChunkOffers(crypto, access, i, id, replies)(p)
      == if k.Some? && p in parcels[k.value].targets then Piece(crypto, access, parcels, i, id) else None
  {
    var ask := ForChunk(i, id);
    assert p in Always(net)(ask, p);
    assert replies(ask, p) == Some(PeerReply(net[p], RequestFor(ask), Complete));
    assert RequestFor(ask) == Framing.GetChunk(id);
    assert Final(map[], net[p].store.files, parcels, p, id);
    Framing.ErrIsNoData();
    if id in net[p].store.files {
      DataReplyRead(net[p].store.files[id]);
    }
  }

  lemma FoundIsPiece(crypto: Crypto, cfg: Config, access: Access, net: Net, parcels: seq<Parcel>, ids: seq<string>,
                     i: nat, replies: Replies)
    requires HoldsLast(net, parcels) && Askable(net, cfg.peers, parcels) && Sized(net) && Honest(net, {}, replies)
    requires i < |ids|
    ensures Found(crypto, cfg, access, ids, replies)(i) == Piece(crypto, access, parcels, i, ids[i])
  {
    var offers, piece := ChunkOffers(crypto, access, i, ids[i], replies), Piece(crypto, access, parcels, i, ids[i]);
    var k := LastWith(parcels, ids[i]);
    forall p | p in cfg.peers
      ensures offers(p) == if k.Some? && p in parcels[k.value].targets then piece else None
    {
      LastIsOffered(crypto, access, net, parcels, i, ids[i], p, replies);
    }
    if piece.Some? {
      var t :| t in parcels[k.value].targets && t in cfg.peers;
      assert offers(t).Some?;
      OfferedIsFound(crypto, cfg, ids[i], offers, piece.value);
    } else {
      ChunkFoundIff(crypto, cfg, access, ids, i, replies);
    }
  }

  lemma {:induction false} CollectSame(f: nat -> Option<string>, g: nat -> Option<string>, i: nat, n: nat)
    requires i <= n && forall k | i <= k < n :: f(k) == g(k)
    ensures Collect(f, i, n) == Collect(g, i, n)
    decreases n - i
  {
    if i < n && f(i).Some? {
      CollectSame(f, g, i + 1, n);
    }
  }

  /** getFile gives what the manifest makes of the parcels. **/
  lemma FetchIsRetrieved(crypto: Crypto, cfg: Config, net: Net, parcels: seq<Parcel>, ref: string,
                         local: Option<string>, replies: Replies)
    requires cfg.peers != [] && HoldsLast(net, parcels) && Askable(net, cfg.peers, parcels)
    requires Sized(net) && Honest(net, {}, replies)
    ensures Fetch(crypto, cfg, ref, local, replies)
         == Retrieved(crypto, cfg, parcels, FetchManifest(crypto, cfg, ref, local, replies))
  {
    var manifest := FetchManifest(crypto, cfg, ref, local, replies);
    if manifest.Some? {
      var m, access := manifest.value, AccessTo(crypto, cfg, manifest.value);
      forall i | 0 <= i < |m.chunks|
        ensures Found(crypto, cfg, access, m.chunks, replies)(i) == Pieces(crypto, access, parcels, m.chunks)(i)
      {
        FoundIsPiece(crypto, cfg, access, net, parcels, m.chunks, i, replies);
      }
      CollectSame(Found(crypto, cfg, access, m.chunks, replies), Pieces(crypto, access, parcels, m.chunks), 0,
                  |m.chunks|);
    }
  }

  /** When a file comes out whole **/

  // The pieces the manifest lists are all to be had, and together they are these bytes.
  ghost predicate GivesBack(crypto: Crypto, cfg: Config, parcels: seq<Parcel>, manifest: Option<Manifest>,
                            bytes: string)
  {
    && manifest.Some? && !AccessTo(crypto, cfg, manifest.value).NoAccess?
    && exists blocks :: ArePieces(crypto, AccessTo(crypto, cfg, manifest.value), parcels, manifest.value.chunks, blocks)
                        && Concat(blocks) == bytes
  }

  ghost predicate ArePieces(crypto: Crypto, access: Access, parcels: seq<Parcel>, ids: seq<string>,
                            blocks: seq<string>)
  {
    |blocks| == |ids| && forall i | 0 <= i < |ids| :: Piece(crypto, access, parcels, i, ids[i]) == Some(blocks[i])
  }

  lemma RetrievedIff(crypto: Crypto, cfg: Config, parcels: seq<Parcel>, manifest: Option<Manifest>, bytes: string)
    ensures Retrieved(crypto, cfg, parcels, manifest) == Wrote(bytes, true)
       <==> GivesBack(crypto, cfg, parcels, manifest, bytes)
  {
    if manifest.Some? {
      var ids, access := manifest.value.chunks, AccessTo(crypto, cfg, manifest.value);
      var pieces := Pieces(crypto, access, parcels, ids);
      var (blocks, ok) := Collect(pieces, 0, |ids|);
      CollectIs(pieces, 0, |ids|);
      if ok {
        assert forall i | 0 <= i < |ids| :: pieces(0 + i) == Some(blocks[i]);
        assert ArePieces(crypto, access, parcels, ids, blocks);
      }
      forall blocks' | ArePieces(crypto, access, parcels, ids, blocks') ensures ok && blocks == blocks' {
        CollectAll(pieces, 0, blocks');
        assert blocks'[0..] == blocks';
      }
    }
  }

  // An id nothing was sent under keeps the file from coming out whole.
  lemma UnknownIdGivesNothing(crypto: Crypto, cfg: Config, parcels: seq<Parcel>, m: Manifest, id: string,
                              bytes: string)
    requires id in m.chunks && forall i | 0 <= i < |parcels| :: parcels[i].id != id
    ensures !GivesBack(crypto, cfg, parcels, Some(m), bytes)
  {
    var access := AccessTo(crypto, cfg, m);
    var i :| 0 <= i < |m.chunks| && m.chunks[i] == id;
    assert Piece(crypto, access, parcels, i, m.chunks[i]) == None;
    forall blocks ensures !ArePieces(crypto, access, parcels, m.chunks, blocks) {
    }
  }

  /** Plaintext **/

  /**
   * From a plaintext upload, and a manifest without a key, exactly these bytes come out: any the ids of which, chunk
   * for chunk, are those of chunks of the file.
   */
  lemma PlainGivesBackIff(crypto: Crypto, put: Config, cfg: Config, key: FileKey, chunks: seq<string>, m: Manifest,
                          bytes: string)
    requires key.Valid() && !put.Encrypts() && ChunksApart(crypto, chunks) && AccessTo(crypto, cfg, m) == Plain
    ensures GivesBack(crypto, cfg, Parcels(crypto, put, key, chunks), Some(m), bytes)
       <==> exists blocks :: SpelledFrom(crypto, chunks, m.chunks, blocks) && Concat(blocks) == bytes
  {
    var parcels := Parcels(crypto, put, key, chunks);
    forall blocks
      ensures ArePieces(crypto, Plain, parcels, m.chunks, blocks) <==> SpelledFrom(crypto, chunks, m.chunks, blocks)
    {
      PiecesAreSpelled(crypto, put, key, chunks, m.chunks, blocks);
    }
  }

  // Different chunks of the file have different hashes.
  ghost predicate ChunksApart(crypto: Crypto, chunks: seq<string>) {
    forall i, j | 0 <= i < |chunks| && 0 <= j < |chunks| && ChunkId(crypto, chunks[i]) == ChunkId(crypto, chunks[j]) ::
      chunks[i] == chunks[j]
  }

  // Chunks of the file with these ids.
  ghost predicate SpelledFrom(crypto: Crypto, chunks: seq<string>, ids: seq<string>, blocks: seq<string>) {
    |blocks| == |ids| && forall i | 0 <= i < |ids| :: blocks[i] in chunks && ChunkId(crypto, blocks[i]) == ids[i]
  }

  lemma PlainPiece(crypto: Crypto, put: Config, key: FileKey, chunks: seq<string>, i: nat, id: string, block: string)
    requires key.Valid() && !put.Encrypts() && ChunksApart(crypto, chunks)
    ensures Piece(crypto, Plain, Parcels(crypto, put, key, chunks), i, id) == Some(block)
       <==> block in chunks && ChunkId(crypto, block) == id
  {
    var parcels := Parcels(crypto, put, key, chunks);
    var k := LastWith(parcels, id);
    if k.Some? {
      assert parcels[k.value].payload == chunks[k.value] && ChunkId(crypto, chunks[k.value]) == id;
    }
  }

  lemma PiecesAreSpelled(crypto: Crypto, put: Config, key: FileKey, chunks: seq<string>, ids: seq<string>,
                         blocks: seq<string>)
    requires key.Valid() && !put.Encrypts() && ChunksApart(crypto, chunks)
    ensures ArePieces(crypto, Plain, Parcels(crypto, put, key, chunks), ids, blocks)
       <==> SpelledFrom(crypto, chunks, ids, blocks)
  {
    if |blocks| == |ids| {
      forall i | 0 <= i < |ids|
        ensures Piece(crypto, Plain, Parcels(crypto, put, key, chunks), i, ids[i]) == Some(blocks[i])
           <==> blocks[i] in chunks && ChunkId(crypto, blocks[i]) == ids[i]
      {
        PlainPiece(crypto, put, key, chunks, i, ids[i], blocks[i]);
      }
    }
  }

  /** What an upload to peers that had nothing leaves **/

  lemma {:induction false} FirstAgreesWithLast(was: map<string, string>, now: map<string, string>, parcels: seq<Parcel>,
                                               q: Endpoint, id: string)
    requires SameTargets(parcels) && SamePayloads(parcels) && id !in was && FirstKept(was, now, parcels, q, id)
    ensures Final(was, now, parcels, q, id)
  {
    var first, last := FirstFor(parcels, id, q), LastWith(parcels, id);
    if last.Some? && q in parcels[last.value].targets {
      assert first.Some?;
      assert parcels[first.value].payload == parcels[last.value].payload;
    }
  }

  lemma UploadHoldsLast(crypto: Crypto, net: Net, u: Upload)
    requires AllSendable(u.parcels) && SameTargets(u.parcels) && (u.dedup ==> SamePayloads(u.parcels))
    requires AllConsistent(net) && NothingEvicted(net, u.parcels, u.dedup) && IsManifest(crypto, u.manifest)
    requires RunUpload(net, u).1 && forall q | q in net :: net[q].store.files == map[]
    ensures HoldsLast(RunUpload(net, u).0, u.parcels)
  {
    UploadLeaves(crypto, net, u);
    var net', mid := RunUpload(net, u).0, DeliverAll(net, u.parcels, u.dedup).0;
    forall q, id | q in net' ensures Final(map[], net'[q].store.files, u.parcels, q, id) {
      assert net'[q].store == mid[q].store;
      if u.dedup {
        FirstDeliveryWins(net, u.parcels, q, id);
        FirstAgreesWithLast(map[], mid[q].store.files, u.parcels, q, id);
      } else {
        LastDeliveryWins(net, u.parcels, q, id);
      }
    }
  }
}
