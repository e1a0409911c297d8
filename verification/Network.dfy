/**
 * The peers as they run: each with its own service and storage, reached over connections that may fail at any byte.
 */
module Network {
  import opened Basics
  import opened Text
  import opened Store
  import opened Routing
  import opened Peers
  import opened Upload
  import opened Faults
  import Framing

  /** The peers that can be reached, each with its own service and storage. **/
  class Cluster {
    const services: map<Endpoint, PeerService>

    ghost function Objects(): set<object> {
      (set p | p in services :: services[p] as object) + (set p | p in services :: services[p].storage as object)
    }

    ghost predicate Valid()
      reads Objects()
    {
      && (forall p, q | p in services && q in services && p != q ::
            services[p] != services[q] && services[p].storage != services[q].storage)
      && forall p | p in services :: services[p].storage.Valid()
    }

    ghost function Net(): Net
      reads Objects()
    {
      map p | p in services :: services[p].Model()
    }

    constructor (services: map<Endpoint, PeerService>)
      ensures this.services == services
    {
      this.services := services;
    }

    // One connection to a peer: the message out, the reply back; "write" is how the peer's file system behaves.
    method Exchange(p: Endpoint, message: string, write: Write, ghost req: Framing.Request) returns (reply: string)
      requires Valid() && p in services && Framing.RequestOf(message) == req
      modifies Objects()
      ensures Valid()
      ensures Net() == old(Net())[p := PeerStep(old(Net())[p], req, write)]
      ensures reply == PeerReply(old(Net())[p], req, write)
    {
      var service := services[p];
      assert service in Objects() && service.storage in Objects();
      ghost var before := Net();
      var stream := new Framing.Stream(message);
      ghost var r;
      reply, r := service.Handle(stream, write);
      assert r == req;
      forall q | q in services && q != p ensures services[q].Model() == before[q] && services[q].storage.Valid() {
        assert services[q] != service && services[q].storage != service.storage;
      }
      assert service.Model() == PeerStep(before[p], req, write);
      NetUpdated(before, Net(), p, PeerStep(before[p], req, write));
    }

    // A message that stores something, and whether it was seen to succeed.
    method Put(p: Endpoint, message: string, fate: Fate, ghost req: Framing.Request) returns (ok: bool)
      requires Valid() && p in services && IsPut(message, req)
      modifies Objects()
      ensures Valid() && ok == Acknowledged(req, fate)
      ensures Net() == old(Net())[p := After(old(Net())[p], req, fate)]
    {
      if fate.Refused? {
        SamePeer(Net(), p);
        return false;
      }
      var resp;
      if fate.Cut? {
        var n: nat :| n < |message|;
        CutChangesNothing(Net()[p], message, n, req);
        SamePeer(Net(), p);
        resp := Exchange(p, message[..n], Complete, Framing.RequestOf(message[..n]));
      } else {
        var write := if fate.WriteFails? then fate.write else Complete;
        OkIff(Net()[p], req, write);
        resp := Exchange(p, message, write, req);
        if fate.Unanswered? {
          var n: nat :| n < 2 && n <= |resp|;
          resp := resp[..n];
        }
      }
      ok := Framing.StartsWithOk(resp);
    }

    // False is the exception, also for a peer that cannot be reached.
    method PutChunk(p: Endpoint, id: string, data: string, fate: Fate) returns (ok: bool)
      requires Valid() && IsToken(id) && |Framing.HeaderLine("PUT_CHUNK", id, |data|)| <= Framing.LINE_CAP
      modifies Objects()
      ensures Valid() && ok == (p in services && Acknowledged(Framing.PutChunk(id, data), fate))
      ensures Net() == if p in services
                       then old(Net())[p := After(old(Net())[p], Framing.PutChunk(id, data), fate)]
                       else old(Net())
    {
      if p !in services {
        return false;
      }
      PutChunkIsPut(id, data);
      ok := Put(p, Framing.PutMessage("PUT_CHUNK", id, data), fate, Framing.PutChunk(id, data));
    }

    method PutManifest(p: Endpoint, id: string, text: string, fate: Fate) returns (ok: bool)
      requires Valid() && IsToken(id) && |Framing.HeaderLine("PUT_MANIFEST", id, |text|)| <= Framing.LINE_CAP
      modifies Objects()
      ensures Valid() && ok == (p in services && Acknowledged(Framing.PutManifest(id, text), fate))
      ensures Net() == if p in services
                       then old(Net())[p := After(old(Net())[p], Framing.PutManifest(id, text), fate)]
                       else old(Net())
    {
      if p !in services {
        return false;
      }
      PutManifestIsPut(id, text);
      ok := Put(p, Framing.PutMessage("PUT_MANIFEST", id, text), fate, Framing.PutManifest(id, text));
    }

    // None is the exception where no connection is made; a connection that fails later counts as a no.
    method HasChunk(p: Endpoint, id: string, fate: Fate) returns (has: Option<bool>)
      requires Valid() && IsToken(id) && |"HAS_CHUNK"| + 1 + |id| <= Framing.LINE_CAP
      modifies Objects()
      ensures Valid() && Net() == old(Net())
      ensures has == if p !in services || fate.Refused? then None
                     else Some(Heard(fate) && id in old(Net())[p].store.meta)
    {
      if p !in services || fate.Refused? {
        return None;
      }
      ghost var net := Net();
      var reply := Ask(p, id, fate);
      assert Net() == net;
      var ok := SaysOk(reply, id in net[p].store.meta, Heard(fate));
      assert Net() == net;
      has := Some(ok);
    }

    // What comes back from a question: an answer, part of one, or nothing.
    method Ask(p: Endpoint, id: string, fate: Fate) returns (reply: string)
      requires Valid() && IsToken(id) && |"HAS_CHUNK"| + 1 + |id| <= Framing.LINE_CAP
      requires p in services && !fate.Refused?
      modifies Objects()
      ensures Valid() && Net() == old(Net())
      ensures IsReply(reply, id in old(Net())[p].store.meta, Heard(fate))
    {
      var message := Framing.AskMessage("HAS_CHUNK", id);
      if fate.Cut? {
        var n: nat :| n < |message|;
        Framing.CutAskIsNoRequest("HAS_CHUNK", id, n);
        SamePeer(Net(), p);
        reply := Exchange(p, message[..n], Complete, Framing.NoLine);
      } else {
        HasIsUnderstood(id);
        QueryChangesNothing(Net(), p, Framing.HasChunk(id));
        reply := Exchange(p, message, Complete, Framing.HasChunk(id));
        if fate.Unanswered? {
          var n: nat :| n < |reply|;
          reply := reply[..n];
        }
      }
    }
  }

  // The whole of the right answer, or less than the whole of it.
  predicate IsReply(reply: string, has: bool, heard: bool) {
    var answer := if has then "OK\n" else "ERR\n";
    if heard then reply == answer else |reply| < |answer| && reply == answer[..|reply|]
  }

  method SaysOk(reply: string, ghost has: bool, ghost heard: bool) returns (ok: bool)
    requires IsReply(reply, has, heard)
    ensures ok <==> heard && has
  {
    Framing.OkAndErrLines();
    Framing.CutOkAndErrLines(|reply|);
    var stream := new Framing.Stream(reply);
    ok := Framing.RecvOk(stream);
  }

  // A message that is read as the request, and as nothing that stores anything when it is cut short.
  ghost predicate IsPut(message: string, req: Framing.Request) {
    && message != "" && Framing.RequestOf(message) == req && (req.PutChunk? || req.PutManifest?) && req.id != ""
    && forall n | 0 <= n < |message| :: Framing.RequestOf(message[..n]) in {Framing.NoLine, Framing.Cut}
  }

  lemma CutChangesNothing(peer: Peer, message: string, n: nat, req: Framing.Request)
    requires IsPut(message, req) && n < |message|
    ensures var r := Framing.RequestOf(message[..n]);
      PeerStep(peer, r, Complete) == peer && !Framing.StartsWithOk(PeerReply(peer, r, Complete))
  {
    assert Framing.RequestOf(message[..n]) in {Framing.NoLine, Framing.Cut};
    Framing.OkAndErrLines();
  }

  lemma OkIff(peer: Peer, req: Framing.Request, write: Write)
    requires (req.PutChunk? || req.PutManifest?) && req.id != ""
    ensures Framing.StartsWithOk(PeerReply(peer, req, write)) <==> Acknowledged(req, WriteFails(write))
    ensures PeerReply(peer, req, write) == "OK\n" || PeerReply(peer, req, write) == "ERR\n"
  {
    Framing.OkAndErrLines();
  }

  lemma PutChunkIsPut(id: string, data: string)
    requires IsToken(id) && |Framing.HeaderLine("PUT_CHUNK", id, |data|)| <= Framing.LINE_CAP
    ensures IsPut(Framing.PutMessage("PUT_CHUNK", id, data), Framing.PutChunk(id, data))
  {
    var message := Framing.PutMessage("PUT_CHUNK", id, data);
    Framing.PutMessageIsUnderstood(id, data, "");
    assert message + "" == message;
    forall n | 0 <= n < |message| ensures Framing.RequestOf(message[..n]) in {Framing.NoLine, Framing.Cut} {
      Framing.CutMessageStoresNothing("PUT_CHUNK", id, data, n);
    }
  }

  lemma PutManifestIsPut(id: string, text: string)
    requires IsToken(id) && |Framing.HeaderLine("PUT_MANIFEST", id, |text|)| <= Framing.LINE_CAP
    ensures IsPut(Framing.PutMessage("PUT_MANIFEST", id, text), Framing.PutManifest(id, text))
  {
    var message := Framing.PutMessage("PUT_MANIFEST", id, text);
    Framing.PutMessageIsUnderstood(id, text, "");
    assert message + "" == message;
    forall n | 0 <= n < |message| ensures Framing.RequestOf(message[..n]) in {Framing.NoLine, Framing.Cut} {
      Framing.CutMessageStoresNothing("PUT_MANIFEST", id, text, n);
    }
  }

  lemma HasIsUnderstood(id: string)
    requires IsToken(id) && |"HAS_CHUNK"| + 1 + |id| <= Framing.LINE_CAP
    ensures Framing.RequestOf(Framing.AskMessage("HAS_CHUNK", id)) == Framing.HasChunk(id)
  {
    Framing.AskIsUnderstood("HAS_CHUNK", id);
  }

  lemma QueryChangesNothing(net: Net, p: Endpoint, req: Framing.Request)
    requires p in net && req.HasChunk?
    ensures net[p := PeerStep(net[p], req, Complete)] == net
  {
    assert PeerStep(net[p], req, Complete) == net[p];
    SamePeer(net, p);
  }

  lemma SamePeer(net: Net, p: Endpoint)
    requires p in net
    ensures net[p := net[p]] == net
  {
    NetUpdated(net, net, p, net[p]);
  }

  lemma NetUpdated(before: Net, after: Net, p: Endpoint, peer: Peer)
    requires after.Keys == before.Keys && p in before && after[p] == peer
    requires forall q | q in before && q != p :: after[q] == before[q]
    ensures after == before[p := peer]
  {
  }
}
