/** The class DssClient, getFile side, as it runs: candidates, requests in turn, integrity check, output. */
module DssGet {
  import opened Basics
  import opened Kademlia
  import opened Routing
  import opened Chunking
  import opened Manifest
  import opened Upload
  import opened Download
  import opened Dht
  import Framing

  class Getter {
    const crypto: Crypto
    const cfg: Config

    constructor (crypto: Crypto, cfg: Config)
      ensures this.crypto == crypto && this.cfg == cfg
    {
      this.crypto, this.cfg := crypto, cfg;
    }

    // The inner loop: same address and same port.
    static method IsCandidate(candidates: seq<Endpoint>, p: Endpoint) returns (already: bool)
      ensures already <==> p in candidates
    {
      for c := 0 to |candidates|
        invariant p !in candidates[..c]
      {
        if candidates[c].ip == p.ip && candidates[c].port == p.port {
          return true;
        }
      }
      already := false;
    }

    // The peers responsible for the key, then every other configured peer.
    method FindCandidates(dht: DhtNode, key: string) returns (candidates: seq<Endpoint>)
      requires dht.Valid() && dht.digest == crypto.digest && dht.peers == cfg.peers
      ensures candidates == Candidates(crypto, cfg, key)
    {
      candidates := dht.FindValue(key, if cfg.desiredReplicas <= 0 then 1 else cfg.desiredReplicas);
      ghost var first := candidates;
      assert cfg.peers[0..] == cfg.peers;
      for n := 0 to |cfg.peers|
        invariant Extend(candidates, cfg.peers[n..]) == Extend(first, cfg.peers)
      {
        var p := cfg.peers[n];
        assert cfg.peers[n..][1..] == cfg.peers[n + 1..];
        var already := IsCandidate(candidates, p);
        if !already {
          candidates := candidates + [p];
        }
      }
      assert cfg.peers[|cfg.peers|..] == [];
    }

    // One GET request: the payload of the reply, or None for any exception.
    method Receive(reply: Option<string>) returns (data: Option<string>)
      ensures data == if reply.None? then None else Framing.DataOf(reply.value)
    {
      if reply.None? {
        return None;
      }
      var stream := new Framing.Stream(reply.value);
      data := Framing.RecvData(stream);
    }

    method TryChunk(access: Access, i: nat, id: string, reply: Option<string>) returns (r: Option<string>)
      ensures r == Accepted(crypto, access, i, id, reply)
    {
      var data := Receive(reply);
      if data.None? {
        return None;
      }
      var plain := Opened(crypto, access, data.value, i);
      if plain.None? || Sha256Hex(crypto.digest, plain.value) != id {
        return None;
      }
      r := plain;
    }

    method TryManifest(id: string, reply: Option<string>) returns (r: Option<Manifest>)
      ensures r == AcceptedManifest(crypto, id, reply)
    {
      var text := Receive(reply);
      if text.None? || Sha256Hex(crypto.digest, text.value) != id {
        return None;
      }
      r := ParseManifestText(text.value);
    }

    method FetchChunk(access: Access, i: nat, id: string, candidates: seq<Endpoint>, replies: Replies)
      returns (r: Option<string>)
      ensures r == FirstOf(candidates, ChunkOffers(crypto, access, i, id, replies))
    {
      ghost var offers := ChunkOffers(crypto, access, i, id, replies);
      assert candidates[0..] == candidates;
      for c := 0 to |candidates|
        invariant FirstOf(candidates, offers) == FirstOf(candidates[c..], offers)
      {
        assert candidates[c..][1..] == candidates[c + 1..];
        r := TryChunk(access, i, id, replies(ForChunk(i, id), candidates[c]));
        assert offers(candidates[c]) == r;
        if r.Some? {
          return;
        }
      }
      assert candidates[|candidates|..] == [];
      r := None;
    }

    method FetchManifestFromPeers(id: string, candidates: seq<Endpoint>, replies: Replies) returns (r: Option<Manifest>)
      ensures r == FirstOf(candidates, ManifestOffers(crypto, id, replies))
    {
      ghost var offers := ManifestOffers(crypto, id, replies);
      assert candidates[0..] == candidates;
      for c := 0 to |candidates|
        invariant FirstOf(candidates, offers) == FirstOf(candidates[c..], offers)
      {
        assert candidates[c..][1..] == candidates[c + 1..];
        r := TryManifest(id, replies(ForManifest(id), candidates[c]));
        assert offers(candidates[c]) == r;
        if r.Some? {
          return;
        }
      }
      assert candidates[|candidates|..] == [];
      r := None;
    }

    // The loop over the manifest's entries, writing each chunk as it is found.
    method FetchChunks(dht: DhtNode, access: Access, ids: seq<string>, replies: Replies)
      returns (out: string, ok: bool)
      requires dht.Valid() && dht.digest == crypto.digest && dht.peers == cfg.peers
      ensures var r := Collect(Found(crypto, cfg, access, ids, replies), 0, |ids|); out == Concat(r.0) && ok == r.1
    {
      ghost var found := Found(crypto, cfg, access, ids, replies);
      ghost var goal := Collect(found, 0, |ids|);
      out := "";
      assert out + Concat(goal.0) == Concat(goal.0);
      for i := 0 to |ids|
        invariant out + Concat(Collect(found, i, |ids|).0) == Concat(goal.0)
        invariant Collect(found, i, |ids|).1 == goal.1
      {
        var candidates := FindCandidates(dht, ids[i]);
        var block := FetchChunk(access, i, ids[i], candidates, replies);
        assert block == found(i);
        ghost var rest := Collect(found, i, |ids|).0;
        if block.None? {
          assert out + Concat(rest) == out;
          return out, false;
        }
        assert rest[0] == block.value && rest[1..] == Collect(found, i + 1, |ids|).0;
        assert out + (block.value + Concat(rest[1..])) == (out + block.value) + Concat(rest[1..]);
        out := out + block.value;
      }
      assert out + "" == out;
      ok := true;
    }

    method GetFile(ref: string, local: Option<string>, replies: Replies) returns (r: Outcome)
      ensures r == Fetch(crypto, cfg, ref, local, replies)
    {
      if cfg.peers == [] {
        return Refused;
      }
      var dht := new DhtNode(crypto.digest, cfg.peers);
      var manifest;
      if local.Some? {
        manifest := ParseManifestText(local.value);
      } else {
        var id := Normalize(ref);
        var candidates := FindCandidates(dht, "manifest:" + id);
        manifest := FetchManifestFromPeers(id, candidates, replies);
      }
      if manifest.None? {
        return Refused;
      }
      var access := AccessTo(crypto, cfg, manifest.value);
      if access.NoAccess? {
        return Refused;
      }
      var out, ok := FetchChunks(dht, access, manifest.value.chunks, replies);
      r := Wrote(out, ok);
    }
  }
}
