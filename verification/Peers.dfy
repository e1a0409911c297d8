/**
 * A peer (src/core/peer/peer_service.cpp): the answer to each request, and its effect on the chunk store and on the
 * manifests, which lie outside the quota.
 */
module Peers {
  import opened Basics
  import opened Text
  import opened Store
  import opened Framing
  import StorageManager

  datatype Peer = Peer(store: State, manifests: map<string, string>)

  ghost function PeerStep(p: Peer, r: Request, write: Write): Peer {
    match r
    case PutChunk(id, data) => p.(store := Step(p.store, Put(id, data, write)))
    case GetChunk(id) => p.(store := Step(p.store, Get(id)))
    case PutManifest(id, text) =>
      if id == "" || write.OpenFailed? then p else p.(manifests := p.manifests[id := text])
    case _ => p
  }

  function PeerReply(p: Peer, r: Request, write: Write): string {
    match r
    case NoLine => ""
    case Cut => "ERR\n"
    case PutChunk(id, data) => if ReplyTo(p.store, Put(id, data, write)).Done? then "OK\n" else "ERR\n"
    case GetChunk(id) => if id in p.store.files then DataReply(p.store.files[id]) else "ERR\n"
    case HasChunk(id) => if id in p.store.meta then "OK\n" else "ERR\n"
    case PutManifest(id, text) => if id == "" || write.OpenFailed? then "ERR\n" else "OK\n"
    case GetManifest(id) => if id in p.manifests then DataReply(p.manifests[id]) else "ERR\n"
    case HasManifest(id) => if id in p.manifests then "OK\n" else "ERR\n"
    case Unknown => ""
  }

  class PeerService {
    const storage: StorageManager.StorageManager
    var manifests: map<string, string>

    constructor (storage: StorageManager.StorageManager)
      ensures this.storage == storage && manifests == map[]
    {
      this.storage := storage;
      manifests := map[];
    }

    ghost function Model(): Peer
      reads this, storage
    {
      Peer(storage.Model(), manifests)
    }

    // One connection: read a request from whatever pieces it arrives in, act on it, and answer. "write" is how the file
    // system takes what the request has the peer write.
    method Handle(stream: Stream, write: Write) returns (reply: string, ghost r: Request)
      requires storage.Valid()
      modifies this, storage, stream
      ensures storage.Valid()
      ensures r == RequestOf(old(stream.pending))
      ensures Model() == PeerStep(old(Model()), r, write)
      ensures reply == PeerReply(old(Model()), r, write)
    {
      var req := RecvRequest(stream);
      r := req;
      RequestIds(old(stream.pending));
      RequestKeeps(storage.Model(), req, write);
      match req {
        case NoLine => reply := "";
        case Unknown => reply := "";
        case Cut => reply := "ERR\n";
        case PutChunk(id, data) =>
          var ok := storage.StoreChunk(id, data, write);
          reply := if ok then "OK\n" else "ERR\n";
        case GetChunk(id) =>
          var data := storage.LoadChunk(id);
          reply := if data.Some? then DataReply(data.value) else "ERR\n";
        case HasChunk(id) =>
          var has := storage.HasChunk(id);
          reply := if has then "OK\n" else "ERR\n";
        case PutManifest(id, text) =>
          if id == "" || write.OpenFailed? {
            reply := "ERR\n";
          } else {
            manifests := manifests[id := text];
            reply := "OK\n";
          }
        case GetManifest(id) =>
          reply := if id in manifests then DataReply(manifests[id]) else "ERR\n";
        case HasManifest(id) =>
          reply := if id in manifests then "OK\n" else "ERR\n";
      }
    }
  }

  /**
   * Only PUT_MANIFEST changes the manifests, and only PUT_CHUNK and GET_CHUNK the store; GET_CHUNK neither the files
   * nor what is indexed.
   */
  lemma OnlyPutsChange(p: Peer, r: Request, write: Write)
    ensures !r.PutManifest? ==> PeerStep(p, r, write).manifests == p.manifests
    ensures !r.PutChunk? && !r.GetChunk? ==> PeerStep(p, r, write).store == p.store
    ensures !r.PutChunk? ==> var t := PeerStep(p, r, write).store;
                             t.files == p.store.files && t.meta.Keys == p.store.meta.Keys
  {
  }

  // What a request does to the store keeps it readable.
  lemma RequestKeeps(s: State, r: Request, write: Write)
    requires WellKept(s) && (r.PutChunk? ==> r.id == "" || IsToken(r.id))
    ensures r.PutChunk? ==> WellKept(Step(s, Put(r.id, r.data, write)))
    ensures r.GetChunk? ==> WellKept(Step(s, Get(r.id)))
  {
    if r.PutChunk? {
      StepKeepsWellKept(s, Put(r.id, r.data, write));
    } else if r.GetChunk? {
      StepKeepsWellKept(s, Get(r.id));
    }
  }

  // The ids in a request are words, or empty.
  lemma RequestIds(bytes: string)
    ensures RequestOf(bytes).PutChunk? ==> RequestOf(bytes).id == "" || IsToken(RequestOf(bytes).id)
  {
  }

  /**
   * One PUT_CHUNK over any connection that delivers the whole message: the peer stores exactly those bytes under that
   * id and the client sees OK; over one that breaks off earlier, at any byte, the peer is left as it was.
   */
  lemma PutChunkOverTheWire(p: Peer, id: string, data: string, n: nat)
    requires IsToken(id) && |HeaderLine("PUT_CHUNK", id, |data|)| <= LINE_CAP
    requires n <= |PutMessage("PUT_CHUNK", id, data)|
    ensures var m := PutMessage("PUT_CHUNK", id, data); var r := RequestOf(m[..n]);
      if n == |m|
      then PeerStep(p, r, Complete) == p.(store := StoreChunk(p.store, id, data))
           && StartsWithOk(PeerReply(p, r, Complete))
      else PeerStep(p, r, Complete) == p && !StartsWithOk(PeerReply(p, r, Complete))
  {
    var m := PutMessage("PUT_CHUNK", id, data);
    if n == |m| {
      assert m[..n] == m == m + "";
      PutMessageIsUnderstood(id, data, "");
    } else {
      CutMessageStoresNothing("PUT_CHUNK", id, data, n);
      assert "ERR\n"[..2][0] == 'E';
    }
  }

  /** One GET_CHUNK: the client receives exactly the bytes in the peer's store, or an exception. **/
  lemma GetChunkOverTheWire(p: Peer, id: string, n: nat)
    requires IsToken(id) && |"GET_CHUNK"| + 1 + |id| <= LINE_CAP
    requires id in p.store.files ==> |"OK" + (" " + NatText(|p.store.files[id]|))| <= LINE_CAP
    ensures RequestOf(AskMessage("GET_CHUNK", id)) == GetChunk(id)
    ensures var reply := PeerReply(p, GetChunk(id), Complete);
      && DataOf(reply) == (if id in p.store.files then Some(p.store.files[id]) else None)
      && (n < |reply| && id in p.store.files ==> DataOf(reply[..n]) == None)
  {
    AskIsUnderstood("GET_CHUNK", id);
    if id in p.store.files {
      var data := p.store.files[id];
      assert DataReply(data) + "" == DataReply(data);
      DataReplyIsUnderstood(data, "");
      if n < |DataReply(data)| {
        CutReplyIsNoData(data, n);
      }
    } else {
      ErrIsNoData();
    }
  }
}
