/**
 * The class DssClient, putFile side, as it runs: loops over chunks and targets, each request sent over a connection to
 * a peer's own service and storage, with connections that may fail and peers that may not be able to write.
 */
module DssClient {
  import opened Basics
  import opened Text
  import opened Store
  import opened Kademlia
  import opened Routing
  import opened Chunking
  import opened Manifest
  import opened Upload
  import opened Faults
  import opened Network
  import opened Download
  import opened Dht
  import Framing

  // Sizes fit 64 bits, so that a header line fits recv_line's cap.
  lemma HeaderFits(cmd: string, id: string, size: nat)
    requires |id| == 64 && size < TWO_TO_64 && |cmd| <= 16
    ensures |Framing.HeaderLine(cmd, id, size)| <= Framing.LINE_CAP
  {
    MachineNumberLength(size);
  }

  /** Lists of targets, one element at a time **/

  // What has been found out about the first j targets.
  ghost predicate AskedSoFar(net: Net, targets: seq<Endpoint>, j: nat, id: string, fate: Endpoint -> Fate,
                             out: seq<Endpoint>)
    requires j <= |targets|
  {
    MissingUnder(net, targets, id, fate)
    == match MissingUnder(net, targets[j..], id, fate)
       case None => None
       case Some(rest) => Some(out + rest)
  }

  lemma AskOneMore(net: Net, targets: seq<Endpoint>, j: nat, id: string, fate: Endpoint -> Fate, out: seq<Endpoint>)
    requires j < |targets| && AskedSoFar(net, targets, j, id, fate, out)
    ensures if targets[j] !in net || fate(targets[j]).Refused? then MissingUnder(net, targets, id, fate) == None
            else AskedSoFar(net, targets, j + 1, id, fate,
                            if Heard(fate(targets[j])) && id in net[targets[j]].store.meta then out
                            else out + [targets[j]])
  {
    assert targets[j..][0] == targets[j] && targets[j..][1..] == targets[j + 1..];
    var rest := MissingUnder(net, targets[j + 1..], id, fate);
    if rest.Some? {
      assert (out + [targets[j]]) + rest.value == out + ([targets[j]] + rest.value);
    }
  }

  lemma {:induction false} MissingAreTargets(net: Net, targets: seq<Endpoint>, id: string, fate: Endpoint -> Fate)
    ensures var r := MissingUnder(net, targets, id, fate);
      r.Some? ==> |r.value| <= |targets| && Reachable(net, r.value)
  {
    if targets != [] && targets[0] in net {
      MissingAreTargets(net, targets[1..], id, fate);
    }
  }

  lemma StartAsking(net: Net, targets: seq<Endpoint>, id: string, fate: Endpoint -> Fate)
    ensures AskedSoFar(net, targets, 0, id, fate, [])
  {
    assert targets[0..] == targets;
    var all := MissingUnder(net, targets, id, fate);
    assert all.Some? ==> [] + all.value == all.value;
  }

  // Sending to all targets ends like this.
  ghost predicate Sent(before: Net, targets: seq<Endpoint>, r: Framing.Request, fate: Endpoint -> Fate, net: Net,
                       ok: bool)
  {
    var s := SendUnder(before, targets, r, fate);
    s.0 == net && s.1 == ok
  }

  // Sending to targets k and up from here comes to the same as sending to all of them from before.
  ghost predicate StillToSend(before: Net, net: Net, targets: seq<Endpoint>, k: nat, r: Framing.Request,
                              fate: Endpoint -> Fate)
    requires k <= |targets|
  {
    SendUnder(before, targets, r, fate) == SendUnder(net, targets[k..], r, fate)
  }

  lemma SendNext(before: Net, net: Net, targets: seq<Endpoint>, k: nat, r: Framing.Request, fate: Endpoint -> Fate)
    requires k < |targets| && StillToSend(before, net, targets, k, r, fate)
    ensures if targets[k] !in net then Sent(before, targets, r, fate, net, false)
            else
              var net' := net[targets[k] := After(net[targets[k]], r, fate(targets[k]))];
              if Acknowledged(r, fate(targets[k])) then StillToSend(before, net', targets, k + 1, r, fate)
              else Sent(before, targets, r, fate, net', false)
  {
    assert targets[k..][0] == targets[k] && targets[k..][1..] == targets[k + 1..];
  }

  // Delivering chunks i and up from here comes to the same as delivering all of them from before.
  ghost predicate StillToDeliver(before: Net, net: Net, parcels: seq<Parcel>, i: nat, dedup: bool, fates: Fates)
    requires i <= |parcels|
  {
    DeliverAllUnder(before, parcels, 0, dedup, fates) == DeliverAllUnder(net, parcels, i, dedup, fates)
  }

  // Delivering all of them ends like this.
  ghost predicate Delivered(before: Net, parcels: seq<Parcel>, dedup: bool, fates: Fates, net: Net, ok: bool) {
    var d := DeliverAllUnder(before, parcels, 0, dedup, fates);
    d.0 == net && d.1 == ok
  }

  // Delivering chunk i ends like this.
  ghost predicate DeliveredOne(before: Net, p: Parcel, i: nat, dedup: bool, fates: Fates, net: Net, ok: bool) {
    var d := DeliverUnder(before, p, dedup, At(fates, Asking(i)), At(fates, Sending(i)));
    d.0 == net && d.1 == ok
  }

  lemma DeliverNext(before: Net, now: Net, parcels: seq<Parcel>, i: nat, dedup: bool, fates: Fates, net: Net, ok: bool)
    requires i < |parcels| && StillToDeliver(before, now, parcels, i, dedup, fates)
    requires DeliveredOne(now, parcels[i], i, dedup, fates, net, ok)
    ensures if ok then StillToDeliver(before, net, parcels, i + 1, dedup, fates)
            else Delivered(before, parcels, dedup, fates, net, false)
  {
  }

  /** class DssClient **/
  class Client {
    const crypto: Crypto
    const cfg: Config

    constructor (crypto: Crypto, cfg: Config)
      ensures this.crypto == crypto && this.cfg == cfg
    {
      this.crypto, this.cfg := crypto, cfg;
    }

    // First half of the deduplicating branch: who is not known to have the chunk. None if one cannot be asked.
    method AskTargets(cluster: Cluster, targets: seq<Endpoint>, id: string, fate: Endpoint -> Fate)
      returns (missing: Option<seq<Endpoint>>)
      requires cluster.Valid() && IsToken(id) && |id| == 64
      modifies cluster.Objects()
      ensures cluster.Valid() && cluster.Net() == old(cluster.Net())
      ensures missing == MissingUnder(old(cluster.Net()), targets, id, fate)
    {
      var out := [];
      ghost var net := cluster.Net();
      StartAsking(net, targets, id, fate);
      for j := 0 to |targets|
        invariant cluster.Valid() && cluster.Net() == net
        invariant AskedSoFar(net, targets, j, id, fate, out)
      {
        AskOneMore(net, targets, j, id, fate, out);
        var has := cluster.HasChunk(targets[j], id, fate(targets[j]));
        if has.None? {
          return None;
        }
        if !has.value {
          out := out + [targets[j]];
        }
      }
      assert targets[|targets|..] == [] && out + [] == out;
      missing := Some(out);
    }

    // Second half: upload to those that miss it, until enough replicas are reached.
    method SendToMissing(cluster: Cluster, missing: seq<Endpoint>, replicas: int, already: nat, id: string,
                         data: string, fate: Endpoint -> Fate)
      returns (ok: bool)
      requires cluster.Valid() && IsToken(id) && |id| == 64 && |data| < TWO_TO_64
      requires already + |missing| <= replicas
      modifies cluster.Objects()
      ensures cluster.Valid()
      ensures Sent(old(cluster.Net()), missing, Framing.PutChunk(id, data), fate, cluster.Net(), ok)
    {
      HeaderFits("PUT_CHUNK", id, |data|);
      var needed := replicas - already;
      ghost var net, r := cluster.Net(), Framing.PutChunk(id, data);
      assert missing[0..] == missing;
      var k: nat := 0;
      while needed > 0 && k < |missing|
        invariant k <= |missing| && needed >= |missing| - k && cluster.Valid()
        invariant StillToSend(net, cluster.Net(), missing, k, r, fate)
      {
        ghost var now := cluster.Net();
        SendNext(net, now, missing, k, r, fate);
        ok := cluster.PutChunk(missing[k], id, data, fate(missing[k]));
        if !ok {
          return;
        }
        k := k + 1;
        needed := needed - 1;
      }
      assert missing[k..] == [];
      ok := true;
    }

    // The encrypting branch: every target, until one fails.
    method SendToAll(cluster: Cluster, targets: seq<Endpoint>, id: string, data: string, fate: Endpoint -> Fate)
      returns (ok: bool)
      requires cluster.Valid() && IsToken(id) && |id| == 64 && |data| < TWO_TO_64
      modifies cluster.Objects()
      ensures cluster.Valid()
      ensures Sent(old(cluster.Net()), targets, Framing.PutChunk(id, data), fate, cluster.Net(), ok)
    {
      HeaderFits("PUT_CHUNK", id, |data|);
      ghost var net, r := cluster.Net(), Framing.PutChunk(id, data);
      assert targets[0..] == targets;
      for j := 0 to |targets|
        invariant cluster.Valid() && StillToSend(net, cluster.Net(), targets, j, r, fate)
      {
        ghost var now := cluster.Net();
        SendNext(net, now, targets, j, r, fate);
        ok := cluster.PutChunk(targets[j], id, data, fate(targets[j]));
        if !ok {
          return;
        }
      }
      assert targets[|targets|..] == [];
      ok := true;
    }

    method SendParcel(cluster: Cluster, p: Parcel, replicas: int, asking: Endpoint -> Fate, sending: Endpoint -> Fate)
      returns (ok: bool)
      requires cluster.Valid() && IsToken(p.id) && |p.id| == 64 && |p.payload| < TWO_TO_64 && |p.targets| <= replicas
      modifies cluster.Objects()
      ensures cluster.Valid()
      ensures var r := DeliverUnder(old(cluster.Net()), p, !cfg.Encrypts(), asking, sending);
        cluster.Net() == r.0 && ok == r.1
    {
      if cfg.Encrypts() {
        ok := SendToAll(cluster, p.targets, p.id, p.payload, sending);
      } else {
        MissingAreTargets(cluster.Net(), p.targets, p.id, asking);
        var missing := AskTargets(cluster, p.targets, p.id, asking);
        if missing.None? {
          return false;
        }
        ok := SendToMissing(cluster, missing.value, replicas, |p.targets| - |missing.value|, p.id, p.payload, sending);
      }
    }

    method SendManifests(cluster: Cluster, m: Parcel, fate: Endpoint -> Fate) returns (ok: bool)
      requires cluster.Valid() && IsToken(m.id) && |m.id| == 64 && |m.payload| < TWO_TO_64
      modifies cluster.Objects()
      ensures cluster.Valid()
      ensures Sent(old(cluster.Net()), m.targets, Framing.PutManifest(m.id, m.payload), fate, cluster.Net(), ok)
    {
      HeaderFits("PUT_MANIFEST", m.id, |m.payload|);
      ghost var net, r := cluster.Net(), Framing.PutManifest(m.id, m.payload);
      assert m.targets[0..] == m.targets;
      for j := 0 to |m.targets|
        invariant cluster.Valid() && StillToSend(net, cluster.Net(), m.targets, j, r, fate)
      {
        ghost var now := cluster.Net();
        SendNext(net, now, m.targets, j, r, fate);
        ok := cluster.PutManifest(m.targets[j], m.id, m.payload, fate(m.targets[j]));
        if !ok {
          return;
        }
      }
      assert m.targets[|m.targets|..] == [];
      ok := true;
    }

    // Hash, encipher and place chunk i.
    method PrepareChunk(dht: DhtNode, key: FileKey, chunk: string, i: nat) returns (p: Parcel)
      requires dht.Valid() && dht.digest == crypto.digest && dht.peers == cfg.peers && key.Valid()
      requires Is256Bit(crypto.digest) && cfg.peers != []
      ensures p == ChunkParcel(crypto, cfg, key, chunk, i)
      ensures IsToken(p.id) && |p.id| == 64 && |p.targets| <= cfg.Replicas()
    {
      var cid := Sha256Hex(crypto.digest, chunk);
      var toSend := chunk;
      if cfg.Encrypts() {
        var iv := DeriveChunkIv(key.iv, i);
        toSend := crypto.seal(chunk, key.key, iv.value);
      }
      var targets := dht.Store(cid, cfg.Replicas());
      p := Parcel(cid, toSend, targets);
      ChunkParcelIsSendable(crypto, cfg, key, chunk, i);
      Sha256HexIsChunkId(crypto.digest, chunk);
    }

    // The chunks as they are to be sent, each of a size that fits 64 bits.
    ghost predicate Prepared(key: FileKey, chunks: seq<string>, parcels: seq<Parcel>)
      requires key.Valid()
    {
      && |parcels| == |chunks|
      && forall i | 0 <= i < |chunks| ::
           parcels[i] == ChunkParcel(crypto, cfg, key, chunks[i], i) && |parcels[i].payload| < TWO_TO_64
    }

    // The manifest's entries so far.
    ghost predicate Listed(parcels: seq<Parcel>, i: nat, ids: seq<string>) {
      |ids| == i <= |parcels| && forall k | 0 <= k < i :: ids[k] == parcels[k].id
    }

    // Chunk i, prepared and delivered.
    method SendChunk(cluster: Cluster, dht: DhtNode, key: FileKey, chunk: string, i: nat, fates: Fates,
                     ghost parcel: Parcel)
      returns (id: string, ok: bool)
      requires cluster.Valid() && dht.Valid() && dht.digest == crypto.digest && dht.peers == cfg.peers
      requires dht.table !in cluster.Objects()
      requires Is256Bit(crypto.digest) && key.Valid() && cfg.peers != []
      requires parcel == ChunkParcel(crypto, cfg, key, chunk, i) && |parcel.payload| < TWO_TO_64
      modifies cluster.Objects()
      ensures cluster.Valid() && dht.Valid() && id == parcel.id
      ensures DeliveredOne(old(cluster.Net()), parcel, i, !cfg.Encrypts(), fates, cluster.Net(), ok)
    {
      ghost var before := cluster.Net();
      var p := PrepareChunk(dht, key, chunk, i);
      assert cluster.Net() == before;
      id := p.id;
      ok := SendParcel(cluster, p, cfg.Replicas(), At(fates, Asking(i)), At(fates, Sending(i)));
    }

    // The body of the loop over chunks.
    method SendOne(cluster: Cluster, dht: DhtNode, key: FileKey, chunks: seq<string>, i: nat, entries: seq<string>,
                   fates: Fates, ghost parcels: seq<Parcel>, ghost before: Net)
      returns (ids: seq<string>, ok: bool)
      requires cluster.Valid() && dht.Valid() && dht.digest == crypto.digest && dht.peers == cfg.peers
      requires dht.table !in cluster.Objects()
      requires Is256Bit(crypto.digest) && key.Valid() && cfg.peers != []
      requires i < |chunks| && Prepared(key, chunks, parcels) && Listed(parcels, i, entries)
      requires StillToDeliver(before, cluster.Net(), parcels, i, !cfg.Encrypts(), fates)
      modifies cluster.Objects()
      ensures cluster.Valid() && dht.Valid() && Listed(parcels, i + 1, ids)
      ensures if ok then StillToDeliver(before, cluster.Net(), parcels, i + 1, !cfg.Encrypts(), fates)
              else Delivered(before, parcels, !cfg.Encrypts(), fates, cluster.Net(), false)
    {
      ghost var now := cluster.Net();
      var id;
      id, ok := SendChunk(cluster, dht, key, chunks[i], i, fates, parcels[i]);
      DeliverNext(before, now, parcels, i, !cfg.Encrypts(), fates, cluster.Net(), ok);
      ids := entries + [id];
    }

    // The loop over chunks: prepare, deliver, and note the id in the manifest.
    method SendChunks(cluster: Cluster, dht: DhtNode, key: FileKey, chunks: seq<string>, fates: Fates,
                      ghost parcels: seq<Parcel>)
      returns (ids: seq<string>, ok: bool)
      requires cluster.Valid() && dht.Valid() && dht.digest == crypto.digest && dht.peers == cfg.peers
      requires dht.table !in cluster.Objects()
      requires Is256Bit(crypto.digest) && key.Valid() && cfg.peers != []
      requires Prepared(key, chunks, parcels)
      modifies cluster.Objects()
      ensures cluster.Valid() && dht.Valid()
      ensures Delivered(old(cluster.Net()), parcels, !cfg.Encrypts(), fates, cluster.Net(), ok)
      ensures ok ==> Listed(parcels, |chunks|, ids)
    {
      ghost var net := cluster.Net();
      ids := [];
      for i := 0 to |chunks|
        invariant cluster.Valid() && dht.Valid() && Listed(parcels, i, ids)
        invariant StillToDeliver(net, cluster.Net(), parcels, i, !cfg.Encrypts(), fates)
      {
        ids, ok := SendOne(cluster, dht, key, chunks, i, ids, fates, parcels, net);
        if !ok {
          return;
        }
      }
      ok := true;
    }

    method PrepareManifest(dht: DhtNode, key: FileKey, name: string, content: string, ids: seq<string>)
      returns (p: Parcel)
      requires dht.Valid() && dht.digest == crypto.digest && dht.peers == cfg.peers && key.Valid() && cfg.chunkSize > 0
      requires ids == ChunkIds(crypto, Split(content, cfg.chunkSize)) && Is256Bit(crypto.digest)
      ensures p == ManifestParcel(crypto, cfg, ManifestOf(crypto, cfg, key, name, content))
      ensures IsToken(p.id) && |p.id| == 64
    {
      var m := if cfg.Encrypts()
               then Manifest(name, |content|, cfg.chunkSize, ids, true, "AES-256-GCM", "RSA",
                             ToHex(crypto.wrap(cfg.publicKey, key.key + key.iv)))
               else Manifest(name, |content|, cfg.chunkSize, ids, false, "", "", "");
      var text := SerializeManifest(m);
      var id := Sha256Hex(crypto.digest, text);
      Sha256HexIsChunkId(crypto.digest, text);
      var targets := dht.Store("manifest:" + id, cfg.Replicas());
      p := Parcel(id, text, targets);
    }

    // The manifest, prepared and sent.
    method PutManifest(cluster: Cluster, dht: DhtNode, key: FileKey, name: string, content: string, ids: seq<string>,
                       fates: Fates, ghost parcel: Parcel)
      returns (m: Parcel, ok: bool)
      requires cluster.Valid() && dht.Valid() && dht.digest == crypto.digest && dht.peers == cfg.peers && key.Valid()
      requires Is256Bit(crypto.digest) && cfg.chunkSize > 0 && ids == ChunkIds(crypto, Split(content, cfg.chunkSize))
      requires parcel == ManifestParcel(crypto, cfg, ManifestOf(crypto, cfg, key, name, content))
      requires |parcel.payload| < TWO_TO_64
      modifies cluster.Objects()
      ensures cluster.Valid() && m == parcel
      ensures Sent(old(cluster.Net()), parcel.targets, Framing.PutManifest(parcel.id, parcel.payload),
                   At(fates, Publishing), cluster.Net(), ok)
    {
      ghost var before := cluster.Net();
      m := PrepareManifest(dht, key, name, content, ids);
      assert cluster.Net() == before;
      ok := SendManifests(cluster, m, At(fates, Publishing));
    }

    lemma ListedIds(key: FileKey, chunks: seq<string>, parcels: seq<Parcel>, ids: seq<string>)
      requires key.Valid() && Prepared(key, chunks, parcels) && Listed(parcels, |chunks|, ids)
      ensures ids == ChunkIds(crypto, chunks)
    {
    }

    lemma UploadIsPrepared(key: FileKey, chunks: seq<string>, u: Upload)
      requires key.Valid() && u.parcels == Parcels(crypto, cfg, key, chunks) && MachineSized(u)
      ensures Prepared(key, chunks, u.parcels)
    {
    }

    // putFile, once its arguments have been checked.
    method PutChecked(cluster: Cluster, dht: DhtNode, key: FileKey, name: string, content: string, chunks: seq<string>,
                      fates: Fates, localCopy: bool, ghost u: Upload)
      returns (result: PutResult)
      requires cluster.Valid() && dht.Valid() && dht.digest == crypto.digest && dht.peers == cfg.peers
      requires dht.table !in cluster.Objects() && Is256Bit(crypto.digest) && key.Valid()
      requires cfg.peers != [] && cfg.chunkSize > 0 && chunks == Split(content, cfg.chunkSize)
      requires u.parcels == Parcels(crypto, cfg, key, chunks) && u.dedup == !cfg.Encrypts()
      requires u.manifest == ManifestParcel(crypto, cfg, ManifestOf(crypto, cfg, key, name, content))
      requires MachineSized(u)
      modifies cluster.Objects()
      ensures cluster.Valid() && cluster.Net() == UploadUnder(old(cluster.Net()), u, fates).0
      ensures result == ResultOf(u, UploadUnder(old(cluster.Net()), u, fates).1 && localCopy)
    {
      UploadIsPrepared(key, chunks, u);
      var ids, ok := SendChunks(cluster, dht, key, chunks, fates, u.parcels);
      if !ok {
        return Thrown;
      }
      ListedIds(key, chunks, u.parcels, ids);
      var m;
      m, ok := PutManifest(cluster, dht, key, name, content, ids, fates, u.manifest);
      result := if ok && localCopy then Returned(SHARE_PREFIX + m.id, m.payload) else Thrown;
    }

    method Prepare(content: string) returns (dht: DhtNode, chunks: Option<seq<string>>)
      ensures dht.Valid() && dht.digest == crypto.digest && dht.peers == cfg.peers && fresh(dht.table)
      ensures chunks == if cfg.chunkSize == 0 then None else Some(Split(content, cfg.chunkSize))
    {
      dht := new DhtNode(crypto.digest, cfg.peers);
      chunks := ChunkFile(content, cfg.chunkSize);
    }

    // putFile; "localCopy" says whether the local manifest's directory and file can be opened.
    method PutFile(cluster: Cluster, key: FileKey, name: string, content: string, fates: Fates, localCopy: bool)
      returns (result: PutResult)
      requires cluster.Valid() && Is256Bit(crypto.digest) && key.Valid()
      requires cfg.chunkSize > 0 ==> MachineSized(UploadOf(crypto, cfg, key, name, content))
      modifies cluster.Objects()
      ensures cluster.Valid()
      ensures cluster.Net() == PeersAfter(crypto, cfg, old(cluster.Net()), key, name, content, fates)
      ensures result == PutOutcome(crypto, cfg, old(cluster.Net()), key, name, content, fates, localCopy)
    {
      if cfg.peers == [] {
        return Thrown;
      }
      ghost var net := cluster.Net();
      var dht, chunks := Prepare(content);
      assert cluster.Net() == net;
      if chunks.None? {
        return Thrown;
      }
      result := PutChecked(cluster, dht, key, name, content, chunks.value, fates, localCopy,
                           UploadOf(crypto, cfg, key, name, content));
    }
  }

  /** An exception, or the share URI and the text in the local copy of the manifest. **/
  datatype PutResult = Thrown | Returned(uri: string, copy: string)

  function ResultOf(u: Upload, ok: bool): PutResult {
    if ok then Returned(SHARE_PREFIX + u.manifest.id, u.manifest.payload) else Thrown
  }

  ghost function PeersAfter(crypto: Crypto, cfg: Config, net: Net, key: FileKey, name: string, content: string,
                            fates: Fates): Net
    requires key.Valid()
  {
    if cfg.peers == [] || cfg.chunkSize == 0 then net
    else UploadUnder(net, UploadOf(crypto, cfg, key, name, content), fates).0
  }

  ghost function PutOutcome(crypto: Crypto, cfg: Config, net: Net, key: FileKey, name: string, content: string,
                            fates: Fates, localCopy: bool): PutResult
    requires key.Valid()
  {
    if cfg.peers == [] || cfg.chunkSize == 0 then Thrown
    else
      var u := UploadOf(crypto, cfg, key, name, content);
      ResultOf(u, UploadUnder(net, u, fates).1 && localCopy)
  }
}
