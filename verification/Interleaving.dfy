/**
 * Any number of plaintext clients uploading at once. A peer serves one request at a time, so a run is a sequence of
 * single requests, by any client at any time; a client checks a peer for a chunk in one request and sends the chunk in
 * a later one.
 */
module Interleaving {
  import opened Basics
  import opened Store
  import opened Recency
  import opened StoreRuns
  import opened Kademlia
  import opened Routing
  import opened Chunking
  import opened Peers
  import opened Upload
  import opened Faults
  import opened Download
  import opened FileNames
  import opened RoundTrip
  import Framing

  // Where putFile stands.
  datatype Phase =
    | Checking(i: nat, j: nat, missing: seq<Endpoint>)        // about to ask target j of chunk i
    | Uploading(i: nat, missing: seq<Endpoint>, k: nat, needed: int)  // about to send chunk i to missing[k]
    | Manifests(j: nat)                                       // about to send the manifest to its target j
    | Returned
    | Aborted

  datatype Client = Client(u: Upload, replicas: nat, phase: Phase)

  datatype World = World(net: Net, clients: seq<Client>)

  // fate: what becomes of the request, if the client is about to make one.
  datatype Action =
    | Advance(c: nat, fate: Fate)
    | Read(p: Endpoint, r: Framing.Request)  // anything that stores nothing
    | Abandon(c: nat)

  // One step of putFile: at most one request, and where it goes on.
  ghost function ClientStep(net: Net, c: Client, fate: Fate): (Net, Phase) {
    match c.phase
    case Checking(i, j, missing) =>
      if i >= |c.u.parcels| then (net, Manifests(0))
      else
        var p := c.u.parcels[i];
        if j < |p.targets| then
          if p.targets[j] !in net || fate.Refused? then (net, Aborted)
          else
            var has := Heard(fate) && p.id in net[p.targets[j]].store.meta;
            (net, Checking(i, j + 1, if has then missing else missing + [p.targets[j]]))
        else (net, Uploading(i, missing, 0, c.replicas - (|p.targets| - |missing|)))
    case Uploading(i, missing, k, needed) =>
      if i >= |c.u.parcels| || k >= |missing| || needed <= 0 then (net, Checking(i + 1, 0, []))
      else
        var (net', ok) := Send(net, missing[k], Framing.PutChunk(c.u.parcels[i].id, c.u.parcels[i].payload), fate);
        (net', if ok then Uploading(i, missing, k + 1, needed - 1) else Aborted)
    case Manifests(j) =>
      if j >= |c.u.manifest.targets| then (net, Returned)
      else
        var m := c.u.manifest;
        var (net', ok) := Send(net, m.targets[j], Framing.PutManifest(m.id, m.payload), fate);
        (net', if ok then Manifests(j + 1) else Aborted)
    case Returned => (net, Returned)
    case Aborted => (net, Aborted)
  }

  // One request to store something, and whether the client sees it succeed.
  ghost function Send(net: Net, t: Endpoint, r: Framing.Request, fate: Fate): (Net, bool) {
    if t !in net then (net, false) else (net[t := After(net[t], r, fate)], Acknowledged(r, fate))
  }

  ghost function Step(w: World, a: Action): (r: World)
    ensures |r.clients| == |w.clients|
  {
    match a
    case Advance(c, fate) =>
      if c >= |w.clients| then w
      else
        var (net, phase) := ClientStep(w.net, w.clients[c], fate);
        World(net, w.clients[c := w.clients[c].(phase := phase)])
    case Read(p, r) =>
      if p !in w.net || r.PutChunk? || r.PutManifest? then w
      else w.(net := w.net[p := PeerStep(w.net[p], r, Complete)])
    case Abandon(c) =>
      if c >= |w.clients| || w.clients[c].phase.Returned? then w
      else w.(clients := w.clients[c := w.clients[c].(phase := Aborted)])
  }

  ghost function Run(w: World, run: seq<Action>): (r: World)
    ensures |r.clients| == |w.clients|
  {
    if run == [] then w else Step(Run(w, run[..|run| - 1]), run[|run| - 1])
  }

  /** Safety, evictions or not **/

  // A store whose index and directory agree, and which holds nothing but bytes under their own hash.
  ghost predicate Sound(crypto: Crypto, p: Peer) {
    && Agree(p.store)
    && (forall id | id in p.store.files :: Sha256Hex(crypto.digest, p.store.files[id]) == id)
    && (forall id | id in p.manifests :: Sha256Hex(crypto.digest, p.manifests[id]) == id)
  }

  ghost predicate SoundNet(crypto: Crypto, net: Net) {
    forall p | p in net :: Sound(crypto, net[p])
  }

  // What UploadOf gives a plaintext client.
  ghost predicate PlainUpload(crypto: Crypto, u: Upload) {
    && AllSendable(u.parcels) && HashNamed(crypto, u.parcels)
    && u.manifest.id == Sha256Hex(crypto.digest, u.manifest.payload) && IsChunkId(u.manifest.id)
  }

  ghost predicate PlainClients(crypto: Crypto, w: World) {
    forall c | 0 <= c < |w.clients| :: PlainUpload(crypto, w.clients[c].u)
  }

  lemma StoreKeepsSound(crypto: Crypto, p: Peer, op: Op)
    requires Sound(crypto, p) && !op.Limit?
    requires op.Put? ==> IsChunkId(op.id) && Sha256Hex(crypto.digest, op.data) == op.id
    ensures Sound(crypto, p.(store := Store.Step(p.store, op)))
  {
    StepKeepsAgreement(p.store, op);
    var t := Store.Step(p.store, op);
    forall h | h in t.files ensures Sha256Hex(crypto.digest, t.files[h]) == h {
      StepFiles(p.store, op, h);
    }
  }

  // A chunk or a manifest under its own hash.
  ghost predicate Named(crypto: Crypto, r: Framing.Request) {
    match r
    case PutChunk(id, data) => IsChunkId(id) && Sha256Hex(crypto.digest, data) == id
    case PutManifest(id, text) => Sha256Hex(crypto.digest, text) == id
    case _ => false
  }

  lemma AfterIsSound(crypto: Crypto, p: Peer, r: Framing.Request, fate: Fate)
    requires Sound(crypto, p) && Named(crypto, r)
    ensures Sound(crypto, After(p, r, fate))
  {
    if r.PutChunk? {
      StoreKeepsSound(crypto, p, Put(r.id, r.data, Complete));
      if fate.WriteFails? {
        StoreKeepsSound(crypto, p, Put(r.id, r.data, fate.write));
      }
    }
  }

  lemma SendKeepsSound(crypto: Crypto, net: Net, t: Endpoint, r: Framing.Request, fate: Fate)
    requires SoundNet(crypto, net) && Named(crypto, r)
    ensures SoundNet(crypto, Send(net, t, r, fate).0)
  {
    if t in net {
      AfterIsSound(crypto, net[t], r, fate);
      UpdateKeepsSound(crypto, net, t, After(net[t], r, fate));
    }
  }

  lemma ClientStepKeepsSound(crypto: Crypto, net: Net, c: Client, fate: Fate)
    requires SoundNet(crypto, net) && PlainUpload(crypto, c.u)
    ensures SoundNet(crypto, ClientStep(net, c, fate).0)
  {
    match c.phase
    case Checking(i, j, missing) =>
    case Uploading(i, missing, k, needed) =>
      if i < |c.u.parcels| && k < |missing| && needed > 0 {
        var p := c.u.parcels[i];
        assert Sendable(p) && Sha256Hex(crypto.digest, p.payload) == p.id;
        SendKeepsSound(crypto, net, missing[k], Framing.PutChunk(p.id, p.payload), fate);
      }
    case Manifests(j) =>
      if j < |c.u.manifest.targets| {
        var m := c.u.manifest;
        SendKeepsSound(crypto, net, m.targets[j], Framing.PutManifest(m.id, m.payload), fate);
      }
    case Returned =>
    case Aborted =>
  }

  lemma UpdateKeepsSound(crypto: Crypto, net: Net, t: Endpoint, p: Peer)
    requires SoundNet(crypto, net) && Sound(crypto, p)
    ensures SoundNet(crypto, net[t := p])
  {
  }

  lemma ReadKeepsSound(crypto: Crypto, p: Peer, r: Framing.Request)
    requires Sound(crypto, p) && !r.PutChunk? && !r.PutManifest?
    ensures Sound(crypto, PeerStep(p, r, Complete))
  {
    OnlyPutsChange(p, r, Complete);
    if r.GetChunk? {
      StoreKeepsSound(crypto, p, Get(r.id));
    }
  }

  lemma StepKeepsSound(crypto: Crypto, w: World, a: Action)
    requires SoundNet(crypto, w.net) && PlainClients(crypto, w)
    ensures SoundNet(crypto, Step(w, a).net)
  {
    match a
    case Advance(c, fate) =>
      if c < |w.clients| {
        ClientStepKeepsSound(crypto, w.net, w.clients[c], fate);
      }
    case Read(p, r) =>
      if p in w.net && !r.PutChunk? && !r.PutManifest? {
        ReadKeepsSound(crypto, w.net[p], r);
        UpdateKeepsSound(crypto, w.net, p, PeerStep(w.net[p], r, Complete));
      }
    case Abandon(_) =>
  }

  // The clients are the same, wherever they stand.
  ghost predicate SameClients(v: World, w: World) {
    && |v.clients| == |w.clients|
    && forall c | 0 <= c < |w.clients| ::
         v.clients[c].u == w.clients[c].u && v.clients[c].replicas == w.clients[c].replicas
  }

  lemma StepKeepsClients(w: World, a: Action)
    ensures SameClients(Step(w, a), w)
  {
  }

  lemma {:induction false} RunKeepsClients(w: World, run: seq<Action>)
    ensures SameClients(Run(w, run), w)
  {
    if run != [] {
      RunKeepsClients(w, run[..|run| - 1]);
      StepKeepsClients(Run(w, run[..|run| - 1]), run[|run| - 1]);
    }
  }

  /**
   * Over every interleaving of any number of plaintext clients and readers, whatever connections fail and whatever
   * peers cannot write, from sound (say, empty) peers and under any quotas: whatever a peer holds under an id has that
   * id as its hash.
   */
  lemma {:induction false} StoredBytesMatchTheirIds(crypto: Crypto, w: World, run: seq<Action>)
    requires SoundNet(crypto, w.net) && PlainClients(crypto, w)
    ensures SoundNet(crypto, Run(w, run).net) && PlainClients(crypto, Run(w, run)) && SameClients(Run(w, run), w)
  {
    RunKeepsClients(w, run);
    if run != [] {
      var before, a := run[..|run| - 1], run[|run| - 1];
      StoredBytesMatchTheirIds(crypto, w, before);
      StepKeepsSound(crypto, Run(w, before), a);
    }
  }

  /** Durability, without evictions **/

  // The fates with which a request gets as far as the directory.
  predicate Lands(fate: Fate) {
    fate.Fine? || fate.Unanswered? || (fate.WriteFails? && fate.write.Complete?)
  }

  // If the action stores a chunk, there is room for it: the guard of the eviction loop stays false.
  ghost predicate ActionFits(w: World, a: Action) {
    a.Advance? && a.c < |w.clients| ==> StepFits(w.net, w.clients[a.c], a.fate)
  }

  ghost predicate StepFits(net: Net, c: Client, fate: Fate) {
    c.phase.Uploading? && c.phase.i < |c.u.parcels| && c.phase.k < |c.phase.missing| && c.phase.needed > 0 ==>
      var p := c.u.parcels[c.phase.i];
      SendFits(net, c.phase.missing[c.phase.k], p.id, |p.payload|, fate)
  }

  ghost predicate SendFits(net: Net, t: Endpoint, id: string, size: nat, fate: Fate) {
    t in net && Lands(fate) ==> Fits(net[t].store, id, size)
  }

  ghost predicate NoEvictions(w: World, run: seq<Action>) {
    forall n | 0 <= n < |run| :: ActionFits(Run(w, run[..n]), run[n])
  }

  // Peers keep what they have; a manifest may be written again.
  ghost predicate Keeps(net: Net, net': Net) {
    && net'.Keys == net.Keys
    && forall q | q in net ::
         && net'[q].store.meta.Keys >= net[q].store.meta.Keys
         && net'[q].manifests.Keys >= net[q].manifests.Keys
  }

  ghost predicate HasChunk(net: Net, t: Endpoint, id: string) {
    t in net && id in net[t].store.meta
  }

  ghost predicate HasManifest(net: Net, t: Endpoint, id: string) {
    t in net && id in net[t].manifests
  }

  ghost predicate ChunksHeld(net: Net, u: Upload, n: nat) {
    forall i, t | 0 <= i < n && i < |u.parcels| && t in u.parcels[i].targets :: HasChunk(net, t, u.parcels[i].id)
  }

  ghost predicate ManifestsHeld(net: Net, u: Upload, n: nat) {
    forall j | 0 <= j < n && j < |u.manifest.targets| :: HasManifest(net, u.manifest.targets[j], u.manifest.id)
  }

  // What a client in the middle of putFile can rely on, whatever the others did in between.
  ghost predicate Progress(net: Net, c: Client) {
    match c.phase
    case Checking(i, j, missing) =>
      && ChunksHeld(net, c.u, i)
      && (i >= |c.u.parcels| ==> j == 0)
      && (i < |c.u.parcels| ==>
            var p := c.u.parcels[i];
            && j <= |p.targets| && |missing| <= j
            && forall h | 0 <= h < j :: p.targets[h] in missing || HasChunk(net, p.targets[h], p.id))
    case Uploading(i, missing, k, needed) =>
      && ChunksHeld(net, c.u, i)
      && i < |c.u.parcels| && k <= |missing| && needed >= |missing| - k
      && forall t | t in c.u.parcels[i].targets :: t in missing[k..] || HasChunk(net, t, c.u.parcels[i].id)
    case Manifests(j) => ChunksHeld(net, c.u, |c.u.parcels|) && ManifestsHeld(net, c.u, j)
    case Returned => ChunksHeld(net, c.u, |c.u.parcels|) && ManifestsHeld(net, c.u, |c.u.manifest.targets|)
    case Aborted => true
  }

  // As putFile starts, with no more targets per chunk than replicas.
  ghost predicate Placed(c: Client) {
    forall i | 0 <= i < |c.u.parcels| :: |c.u.parcels[i].targets| <= c.replicas
  }

  lemma ProgressIsStable(net: Net, net': Net, c: Client)
    requires Progress(net, c) && Keeps(net, net')
    ensures Progress(net', c)
  {
    forall t, id | HasChunk(net, t, id) ensures HasChunk(net', t, id) {
      assert id in net[t].store.meta.Keys;
    }
    forall t, id | HasManifest(net, t, id) ensures HasManifest(net', t, id) {
      assert id in net[t].manifests.Keys;
    }
  }

  lemma SendChunkKeeps(net: Net, t: Endpoint, id: string, data: string, fate: Fate)
    requires (t in net ==> Agree(net[t].store)) && IsChunkId(id) && SendFits(net, t, id, |data|, fate)
    ensures var (net', ok) := Send(net, t, Framing.PutChunk(id, data), fate);
      Keeps(net, net') && (ok ==> HasChunk(net', t, id))
  {
    if t in net {
      var w := Written(net[t].store, id, data);
      assert Lands(fate) ==> StoreChunk(net[t].store, id, data).meta == w.meta;
      assert w.meta.Keys == net[t].store.meta.Keys + {id};
    }
  }

  lemma CheckingProgresses(net: Net, c: Client, fate: Fate)
    requires c.phase.Checking? && Placed(c) && Progress(net, c)
    ensures var (net', phase) := ClientStep(net, c, fate); net' == net && Progress(net, c.(phase := phase))
  {
    var Checking(i, j, missing) := c.phase;
    if i < |c.u.parcels| {
      var p := c.u.parcels[i];
      if j < |p.targets| {
        assert forall h | 0 <= h < j :: p.targets[h] in missing + [p.targets[j]] || HasChunk(net, p.targets[h], p.id);
      } else {
        assert missing[0..] == missing;
        forall t | t in p.targets ensures t in missing || HasChunk(net, t, p.id) {
          var h :| 0 <= h < |p.targets| && p.targets[h] == t;
        }
      }
    }
  }

  lemma UploadingProgresses(crypto: Crypto, net: Net, c: Client, fate: Fate)
    requires c.phase.Uploading? && Progress(net, c) && AllSendable(c.u.parcels)
    requires SoundNet(crypto, net) && StepFits(net, c, fate)
    ensures var (net', phase) := ClientStep(net, c, fate); Keeps(net, net') && Progress(net', c.(phase := phase))
  {
    var Uploading(i, missing, k, needed) := c.phase;
    var p := c.u.parcels[i];
    if k >= |missing| {
      assert missing[k..] == [];
      assert ChunksHeld(net, c.u, i + 1);
    } else {
      var t := missing[k];
      assert Sendable(p);
      assert t in net ==> Sound(crypto, net[t]);
      var (net', ok) := Send(net, t, Framing.PutChunk(p.id, p.payload), fate);
      SendChunkKeeps(net, t, p.id, p.payload, fate);
      ProgressIsStable(net, net', c);
      assert missing[k..] == [t] + missing[k + 1..];
    }
  }

  lemma ManifestsProgresses(net: Net, c: Client, fate: Fate)
    requires c.phase.Manifests? && Progress(net, c) && c.u.manifest.id != ""
    ensures var (net', phase) := ClientStep(net, c, fate); Keeps(net, net') && Progress(net', c.(phase := phase))
  {
    var j, m := c.phase.j, c.u.manifest;
    if j < |m.targets| {
      var (net', ok) := Send(net, m.targets[j], Framing.PutManifest(m.id, m.payload), fate);
      assert Keeps(net, net');
      ProgressIsStable(net, net', c);
      assert ok ==> HasManifest(net', m.targets[j], m.id);
    }
  }

  lemma ClientStepProgresses(crypto: Crypto, w: World, c: nat, fate: Fate)
    requires c < |w.clients| && SoundNet(crypto, w.net) && PlainUpload(crypto, w.clients[c].u) && Placed(w.clients[c])
    requires Progress(w.net, w.clients[c]) && ActionFits(w, Advance(c, fate))
    ensures var (net', phase) := ClientStep(w.net, w.clients[c], fate);
      Keeps(w.net, net') && Progress(net', w.clients[c].(phase := phase))
  {
    var cl := w.clients[c];
    match cl.phase
    case Checking(_, _, _) => CheckingProgresses(w.net, cl, fate);
    case Uploading(i, missing, k, needed) =>
      UploadingProgresses(crypto, w.net, cl, fate);
    case Manifests(_) => ManifestsProgresses(w.net, cl, fate);
    case Returned =>
    case Aborted =>
  }

  /** Whole runs **/

  ghost predicate AllProgress(w: World) {
    forall c | 0 <= c < |w.clients| :: Progress(w.net, w.clients[c]) && Placed(w.clients[c])
  }

  // Plaintext clients about to start on sound peers.
  ghost predicate Start(crypto: Crypto, w: World) {
    && SoundNet(crypto, w.net) && PlainClients(crypto, w)
    && forall c | 0 <= c < |w.clients| :: Placed(w.clients[c]) && w.clients[c].phase == Checking(0, 0, [])
  }

  lemma AllProgressIsStable(w: World, net': Net)
    requires AllProgress(w) && Keeps(w.net, net')
    ensures AllProgress(w.(net := net'))
  {
    forall d | 0 <= d < |w.clients| ensures Progress(net', w.clients[d]) {
      ProgressIsStable(w.net, net', w.clients[d]);
    }
  }

  lemma ReadKeeps(net: Net, p: Endpoint, r: Framing.Request)
    requires p in net && !r.PutChunk? && !r.PutManifest?
    ensures Keeps(net, net[p := PeerStep(net[p], r, Complete)])
  {
    OnlyPutsChange(net[p], r, Complete);
  }

  lemma StepProgresses(crypto: Crypto, w: World, a: Action)
    requires SoundNet(crypto, w.net) && PlainClients(crypto, w) && AllProgress(w) && ActionFits(w, a)
    ensures AllProgress(Step(w, a)) && Keeps(w.net, Step(w, a).net)
  {
    match a
    case Advance(c, fate) =>
      if c < |w.clients| {
        ClientStepProgresses(crypto, w, c, fate);
        AllProgressIsStable(w, Step(w, a).net);
      }
    case Read(p, r) =>
      if p in w.net && !r.PutChunk? && !r.PutManifest? {
        ReadKeeps(w.net, p, r);
        AllProgressIsStable(w, Step(w, a).net);
      }
    case Abandon(c) =>
  }

  lemma {:induction false} RunsProgress(crypto: Crypto, w: World, run: seq<Action>)
    requires Start(crypto, w) && NoEvictions(w, run)
    ensures AllProgress(Run(w, run)) && SoundNet(crypto, Run(w, run).net) && PlainClients(crypto, Run(w, run))
  {
    StoredBytesMatchTheirIds(crypto, w, run);
    if run != [] {
      var n := |run| - 1;
      var before := run[..n];
      forall m | 0 <= m < n ensures ActionFits(Run(w, before[..m]), before[m]) {
        assert before[..m] == run[..m];
      }
      RunsProgress(crypto, w, before);
      assert ActionFits(Run(w, run[..n]), run[n]);
      StepProgresses(crypto, Run(w, before), run[n]);
    }
  }

  /**
   * However the clients' requests interleave, once a client's putFile has returned every target of every one of its
   * chunks holds that chunk and every target of its manifest holds the manifest, despite the gap between the check and
   * the upload.
   */
  lemma ReturnedMeansHeld(crypto: Crypto, w: World, run: seq<Action>, c: nat)
    requires Start(crypto, w) && NoEvictions(w, run) && c < |w.clients| && Run(w, run).clients[c].phase.Returned?
    ensures PlainlyHeld(crypto, Run(w, run).net, w.clients[c].u, {})
  {
    StoredBytesMatchTheirIds(crypto, w, run);
    RunsProgress(crypto, w, run);
    var net, u := Run(w, run).net, w.clients[c].u;
    assert Progress(net, Run(w, run).clients[c]);
    forall i, t | 0 <= i < |u.parcels| && t in u.parcels[i].targets
      ensures HasChunk(net, t, u.parcels[i].id) && u.parcels[i].id in net[t].store.files
    {
      assert Sound(crypto, net[t]);
      assert net[t].store.meta.Keys == net[t].store.files.Keys;
    }
    forall t | t in u.manifest.targets ensures HasManifest(net, t, u.manifest.id) {
      var j :| 0 <= j < |u.manifest.targets| && u.manifest.targets[j] == t;
    }
  }

  // putFile returns once.
  lemma {:induction false} ReturnedForGood(w: World, run: seq<Action>, later: seq<Action>, c: nat)
    requires c < |w.clients| && Run(w, run).clients[c].phase.Returned?
    ensures Run(w, run + later).clients[c].phase.Returned?
  {
    if later == [] {
      assert run + later == run;
    } else {
      var n := |later| - 1;
      assert (run + later)[..|run + later| - 1] == run + later[..n];
      ReturnedForGood(w, run, later[..n], c);
    }
  }

  // Each thing is asked of each peer after so many of the later actions.
  type Schedule = (Ask, Endpoint) -> nat

  ghost function MomentsOf(w: World, run: seq<Action>, later: seq<Action>, when: Schedule): Moments {
    (ask, p) => Run(w, run + later[..if when(ask, p) <= |later| then when(ask, p) else |later|]).net
  }

  lemma NoEvictionsBefore(w: World, run: seq<Action>, later: seq<Action>, n: nat)
    requires NoEvictions(w, run + later) && n <= |later|
    ensures NoEvictions(w, run + later[..n])
  {
    var all, part := run + later, run + later[..n];
    forall m | 0 <= m < |part| ensures ActionFits(Run(w, part[..m]), part[m]) {
      assert part[..m] == all[..m] && part[m] == all[m];
      assert ActionFits(Run(w, all[..m]), all[m]);
    }
  }

  lemma HeldAtEveryMoment(crypto: Crypto, w: World, run: seq<Action>, later: seq<Action>, c: nat, when: Schedule)
    requires Start(crypto, w) && NoEvictions(w, run + later)
    requires c < |w.clients| && Run(w, run).clients[c].phase.Returned?
    ensures forall ask, p :: PlainlyHeld(crypto, MomentsOf(w, run, later, when)(ask, p), w.clients[c].u, {})
  {
    forall ask, p ensures PlainlyHeld(crypto, MomentsOf(w, run, later, when)(ask, p), w.clients[c].u, {}) {
      var n := if when(ask, p) <= |later| then when(ask, p) else |later|;
      NoEvictionsBefore(w, run, later, n);
      ReturnedForGood(w, run, later[..n], c);
      ReturnedMeansHeld(crypto, w, run + later[..n], c);
    }
  }

  lemma FewerAreBad(crypto: Crypto, at: Moments, u: Upload, bad: set<Endpoint>)
    requires forall ask, p :: PlainlyHeld(crypto, at(ask, p), u, {}) && Sized(at(ask, p))
    ensures HeldThroughout(crypto, at, u, bad)
  {
    forall ask, p ensures PlainlyHeld(crypto, at(ask, p), u, bad) && Sized(at(ask, p)) {
      assert PlainlyHeld(crypto, at(ask, p), u, {});
    }
  }

  /**
   * The whole story of a shared file: a client uploads it among any number of others; after its putFile has returned,
   * and for as long as nothing is evicted, getFile on the share id writes exactly the original bytes, despite fewer bad
   * peers than targets, and although the others go on: each of its requests may be served at a moment of its own.
   */
  lemma SharedFileStaysRetrievable(crypto: Crypto, w: World, run: seq<Action>, later: seq<Action>, c: nat,
                                   put: Config, get: Config, key: FileKey, name: string, content: string,
                                   bad: set<Endpoint>, when: Schedule, replies: Replies)
    requires Start(crypto, w) && NoEvictions(w, run + later)
    requires c < |w.clients| && Run(w, run).clients[c].phase.Returned?
    requires Is256Bit(crypto.digest) && key.Valid() && put.chunkSize > 0 && !put.Encrypts() && OneWord(name)
    requires w.clients[c].u == UploadOf(crypto, put, key, name, content)
    requires var u := w.clients[c].u; var at := MomentsOf(w, run, later, when);
      && FewBadFor(u, bad, get.peers) && HonestAt(at, bad, replies) && (forall ask, p :: Sized(at(ask, p)))
      && NoCollisions(crypto, get.peers, Plain, Split(content, put.chunkSize), u.manifest.payload, replies)
    ensures Fetch(crypto, get, SHARE_PREFIX + w.clients[c].u.manifest.id, None, replies) == Wrote(content, true)
    ensures LocallyToo(crypto, get, w.clients[c].u.manifest.payload, content, replies)
  {
    var at := MomentsOf(w, run, later, when);
    HeldAtEveryMoment(crypto, w, run, later, c, when);
    FewerAreBad(crypto, at, w.clients[c].u, bad);
    HeldFileIsRetrieved(crypto, put, get, key, name, content, at, bad, replies);
  }

  // A plaintext client as putFile makes it may start.
  lemma UploadsMayStart(crypto: Crypto, put: Config, key: FileKey, name: string, content: string)
    requires Is256Bit(crypto.digest) && key.Valid() && put.peers != [] && put.chunkSize > 0 && !put.Encrypts()
    ensures var u := UploadOf(crypto, put, key, name, content);
      PlainUpload(crypto, u) && Placed(Client(u, put.Replicas(), Checking(0, 0, [])))
  {
    var u := UploadOf(crypto, put, key, name, content);
    var chunks := Split(content, put.chunkSize);
    PlainParcels(crypto, put, key, chunks);
    Sha256HexIsChunkId(crypto.digest, u.manifest.payload);
    forall i | 0 <= i < |u.parcels| ensures |u.parcels[i].targets| <= put.Replicas() {
      ChunkParcelIsSendable(crypto, put, key, chunks[i], i);
    }
  }

  lemma EmptyPeersAreSound(crypto: Crypto, limit: nat)
    ensures Sound(crypto, Peer(Empty(limit), map[]))
  {
  }
}
