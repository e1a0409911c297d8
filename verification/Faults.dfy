/**
 * putFile when connections fail and peers cannot write: what it leaves, and that one which returns all the same, having
 * heard every answer it asked for, is the upload of Upload.dfy.
 */
module Faults {
  import opened Basics
  import opened Store
  import opened Routing
  import opened Peers
  import opened Upload
  import Framing

  /** What may become of one request. **/
  datatype Fate =
    | Fine
    | Refused                    // no connection
    | Cut                        // it breaks off before the request is complete
    | Unanswered                 // the request is served, but the reply is lost
    | WriteFails(write: Write)   // the peer's file system answers like this

  datatype Contact =
    | Asking(i: nat)             // HAS_CHUNK for chunk i
    | Sending(i: nat)            // PUT_CHUNK of chunk i
    | Publishing                 // PUT_MANIFEST

  type Fates = (Contact, Endpoint) -> Fate

  function At(fates: Fates, contact: Contact): Endpoint -> Fate {
    p => fates(contact, p)
  }

  // The peer after a request to store something.
  ghost function After(peer: Peer, r: Framing.Request, fate: Fate): Peer {
    match fate
    case Fine => PeerStep(peer, r, Complete)
    case Refused => peer
    case Cut => peer
    case Unanswered => PeerStep(peer, r, Complete)
    case WriteFails(write) => PeerStep(peer, r, write)
  }

  // Whether the client sees an OK; otherwise it throws.
  predicate Acknowledged(r: Framing.Request, fate: Fate) {
    fate.Fine? || (fate.WriteFails? && if r.PutManifest? then !fate.write.OpenFailed? else fate.write.Complete?)
  }

  // Whether the client learns the answer to a question; otherwise it goes on as if it had been no.
  predicate Heard(fate: Fate) {
    fate.Fine? || fate.WriteFails?
  }

  ghost function SendUnder(net: Net, targets: seq<Endpoint>, r: Framing.Request, fate: Endpoint -> Fate): (Net, bool) {
    if targets == [] then (net, true)
    else if targets[0] !in net then (net, false)
    else
      var t := targets[0];
      var net' := net[t := After(net[t], r, fate(t))];
      if Acknowledged(r, fate(t)) then SendUnder(net', targets[1..], r, fate) else (net', false)
  }

  // The targets not known to have the chunk; None if one of them cannot be asked.
  function MissingUnder(net: Net, targets: seq<Endpoint>, id: string, fate: Endpoint -> Fate): Option<seq<Endpoint>> {
    if targets == [] then Some([])
    else if targets[0] !in net || fate(targets[0]).Refused? then None
    else
      match MissingUnder(net, targets[1..], id, fate)
      case None => None
      case Some(rest) =>
        if Heard(fate(targets[0])) && id in net[targets[0]].store.meta then Some(rest) else Some([targets[0]] + rest)
  }

  ghost function DeliverUnder(net: Net, p: Parcel, dedup: bool, asking: Endpoint -> Fate, sending: Endpoint -> Fate):
    (Net, bool)
  {
    if !dedup then SendUnder(net, p.targets, Framing.PutChunk(p.id, p.payload), sending)
    else
      match MissingUnder(net, p.targets, p.id, asking)
      case None => (net, false)
      case Some(missing) => SendUnder(net, missing, Framing.PutChunk(p.id, p.payload), sending)
  }

  // Chunks i and up.
  ghost function DeliverAllUnder(net: Net, parcels: seq<Parcel>, i: nat, dedup: bool, fates: Fates): (Net, bool)
    requires i <= |parcels|
    decreases |parcels| - i
  {
    if i == |parcels| then (net, true)
    else
      var (net', ok) := DeliverUnder(net, parcels[i], dedup, At(fates, Asking(i)), At(fates, Sending(i)));
      if ok then DeliverAllUnder(net', parcels, i + 1, dedup, fates) else (net', false)
  }

  ghost function UploadUnder(net: Net, u: Upload, fates: Fates): (Net, bool) {
    var (net', ok) := DeliverAllUnder(net, u.parcels, 0, u.dedup, fates);
    if ok then SendUnder(net', u.manifest.targets, Framing.PutManifest(u.manifest.id, u.manifest.payload),
                         At(fates, Publishing))
    else (net', false)
  }

  /** An upload that returns **/

  lemma {:induction false} ReturnedChunkWasSent(net: Net, targets: seq<Endpoint>, id: string, data: string,
                                                fate: Endpoint -> Fate)
    requires SendUnder(net, targets, Framing.PutChunk(id, data), fate).1
    ensures SendUnder(net, targets, Framing.PutChunk(id, data), fate) == SendChunkTo(net, targets, id, data)
  {
    if targets != [] {
      ReturnedChunkWasSent(SendChunk(net, targets[0], id, data), targets[1..], id, data, fate);
    }
  }

  lemma {:induction false} ReturnedManifestWasSent(net: Net, targets: seq<Endpoint>, id: string, text: string,
                                                   fate: Endpoint -> Fate)
    requires SendUnder(net, targets, Framing.PutManifest(id, text), fate).1
    ensures SendUnder(net, targets, Framing.PutManifest(id, text), fate) == SendManifestTo(net, targets, id, text)
  {
    if targets != [] {
      ReturnedManifestWasSent(SendManifest(net, targets[0], id, text), targets[1..], id, text, fate);
    }
  }

  // Every answer asked for is heard.
  ghost predicate AllHeard(fates: Fates) {
    forall i, p :: fates(Asking(i), p).Refused? || Heard(fates(Asking(i), p))
  }

  lemma {:induction false} HeardMissing(net: Net, targets: seq<Endpoint>, id: string, fate: Endpoint -> Fate)
    requires MissingUnder(net, targets, id, fate).Some? && forall p :: fate(p).Refused? || Heard(fate(p))
    ensures Reachable(net, targets) && MissingUnder(net, targets, id, fate) == Some(Missing(net, targets, id))
  {
    if targets != [] {
      assert targets == [targets[0]] + targets[1..];
      HeardMissing(net, targets[1..], id, fate);
    }
  }

  lemma ReturnedDelivery(net: Net, p: Parcel, dedup: bool, asking: Endpoint -> Fate, sending: Endpoint -> Fate)
    requires DeliverUnder(net, p, dedup, asking, sending).1
    requires dedup ==> forall q :: asking(q).Refused? || Heard(asking(q))
    ensures DeliverUnder(net, p, dedup, asking, sending) == Deliver(net, p, dedup)
  {
    if dedup {
      HeardMissing(net, p.targets, p.id, asking);
      ReturnedChunkWasSent(net, Missing(net, p.targets, p.id), p.id, p.payload, sending);
    } else {
      ReturnedChunkWasSent(net, p.targets, p.id, p.payload, sending);
    }
  }

  lemma {:induction false} ReturnedDeliveries(net: Net, parcels: seq<Parcel>, i: nat, dedup: bool, fates: Fates)
    requires i <= |parcels| && DeliverAllUnder(net, parcels, i, dedup, fates).1 && (dedup ==> AllHeard(fates))
    ensures DeliverAllUnder(net, parcels, i, dedup, fates) == DeliverAll(net, parcels[i..], dedup)
    decreases |parcels| - i
  {
    if i < |parcels| {
      ReturnedDelivery(net, parcels[i], dedup, At(fates, Asking(i)), At(fates, Sending(i)));
      assert parcels[i..][0] == parcels[i] && parcels[i..][1..] == parcels[i + 1..];
      ReturnedDeliveries(Deliver(net, parcels[i], dedup).0, parcels, i + 1, dedup, fates);
    }
  }

  /**
   * Whatever goes wrong on the way, a putFile that returns nevertheless, and either encrypts or has heard every answer
   * it asked for, has done exactly what one that met with no trouble does.
   */
  lemma ReturnedUploadIsRunUpload(net: Net, u: Upload, fates: Fates)
    requires UploadUnder(net, u, fates).1 && (u.dedup ==> AllHeard(fates))
    ensures UploadUnder(net, u, fates) == RunUpload(net, u)
  {
    ReturnedDeliveries(net, u.parcels, 0, u.dedup, fates);
    assert u.parcels[0..] == u.parcels;
    ReturnedManifestWasSent(DeliverAll(net, u.parcels, u.dedup).0, u.manifest.targets, u.manifest.id,
                            u.manifest.payload, At(fates, Publishing));
  }

  /** No trouble **/

  ghost predicate AllFine(fates: Fates) {
    forall c, p :: fates(c, p).Fine?
  }

  lemma {:induction false} FineSends(net: Net, targets: seq<Endpoint>, id: string, data: string, fate: Endpoint -> Fate)
    requires forall p :: fate(p).Fine?
    ensures SendUnder(net, targets, Framing.PutChunk(id, data), fate) == SendChunkTo(net, targets, id, data)
    ensures SendUnder(net, targets, Framing.PutManifest(id, data), fate) == SendManifestTo(net, targets, id, data)
  {
    if targets != [] && targets[0] in net {
      FineSends(SendChunk(net, targets[0], id, data), targets[1..], id, data, fate);
      FineSends(SendManifest(net, targets[0], id, data), targets[1..], id, data, fate);
    }
  }

  lemma {:induction false} FineMissing(net: Net, targets: seq<Endpoint>, id: string, fate: Endpoint -> Fate)
    requires forall p :: fate(p).Fine?
    ensures MissingUnder(net, targets, id, fate).Some? <==> Reachable(net, targets)
  {
    if targets != [] {
      assert targets == [targets[0]] + targets[1..];
      FineMissing(net, targets[1..], id, fate);
    }
  }

  lemma FineDelivery(net: Net, p: Parcel, dedup: bool, asking: Endpoint -> Fate, sending: Endpoint -> Fate)
    requires forall q :: asking(q).Fine? && sending(q).Fine?
    ensures DeliverUnder(net, p, dedup, asking, sending) == Deliver(net, p, dedup)
  {
    if dedup {
      FineMissing(net, p.targets, p.id, asking);
      if Reachable(net, p.targets) {
        HeardMissing(net, p.targets, p.id, asking);
        FineSends(net, Missing(net, p.targets, p.id), p.id, p.payload, sending);
      }
    } else {
      FineSends(net, p.targets, p.id, p.payload, sending);
    }
  }

  lemma {:induction false} FineDeliveries(net: Net, parcels: seq<Parcel>, i: nat, dedup: bool, fates: Fates)
    requires i <= |parcels| && AllFine(fates)
    ensures DeliverAllUnder(net, parcels, i, dedup, fates) == DeliverAll(net, parcels[i..], dedup)
    decreases |parcels| - i
  {
    if i < |parcels| {
      FineDelivery(net, parcels[i], dedup, At(fates, Asking(i)), At(fates, Sending(i)));
      assert parcels[i..][0] == parcels[i] && parcels[i..][1..] == parcels[i + 1..];
      FineDeliveries(Deliver(net, parcels[i], dedup).0, parcels, i + 1, dedup, fates);
    }
  }

  /** Without any trouble putFile is the upload function, whether it returns or meets an unreachable peer. **/
  lemma FineUploadIsRunUpload(net: Net, u: Upload, fates: Fates)
    requires AllFine(fates)
    ensures UploadUnder(net, u, fates) == RunUpload(net, u)
  {
    FineDeliveries(net, u.parcels, 0, u.dedup, fates);
    assert u.parcels[0..] == u.parcels;
    var net' := DeliverAll(net, u.parcels, u.dedup).0;
    FineSends(net', u.manifest.targets, u.manifest.id, u.manifest.payload, At(fates, Publishing));
  }
}
