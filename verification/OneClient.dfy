/**
 * One client of the interleaving by itself: the step machine is putFile, whatever becomes of its requests, and what
 * holds of all interleavings holds of it.
 */
module OneClient {
  import opened Basics
  import opened Kademlia
  import opened Routing
  import opened Chunking
  import opened Upload
  import opened Faults
  import opened Download
  import opened FileNames
  import opened RoundTrip
  import opened Interleaving
  import Framing

  // What becomes of the request the client is about to make, if it is.
  function FateAt(fates: Fates, c: Client): Fate {
    match c.phase
    case Checking(i, j, _) =>
      if i < |c.u.parcels| && j < |c.u.parcels[i].targets| then fates(Asking(i), c.u.parcels[i].targets[j]) else Fine
    case Uploading(i, missing, k, _) => if k < |missing| then fates(Sending(i), missing[k]) else Fine
    case Manifests(j) =>
      if j < |c.u.manifest.targets| then fates(Publishing, c.u.manifest.targets[j]) else Fine
    case _ => Fine
  }

  ghost function Next(net: Net, c: Client, fates: Fates): (Net, Phase) {
    ClientStep(net, c, FateAt(fates, c))
  }

  // n steps of the client, with nobody else about.
  ghost function Alone(net: Net, c: Client, fates: Fates, n: nat): (Net, Phase) {
    if n == 0 then (net, c.phase)
    else
      var (before, phase) := Alone(net, c, fates, n - 1);
      Next(before, c.(phase := phase), fates)
  }

  lemma {:induction false} AloneThen(net: Net, c: Client, fates: Fates, m: nat, n: nat)
    ensures var mid := Alone(net, c, fates, m);
      Alone(net, c, fates, m + n) == Alone(mid.0, c.(phase := mid.1), fates, n)
  {
    if n > 0 {
      AloneThen(net, c, fates, m, n - 1);
      assert m + n - 1 == m + (n - 1);
    }
  }

  // The client gets from here to there.
  ghost predicate Gets(net: Net, c: Client, fates: Fates, net': Net, phase: Phase) {
    exists n: nat :: Alone(net, c, fates, n) == (net', phase)
  }

  lemma GetsNowhere(net: Net, c: Client, fates: Fates)
    ensures Gets(net, c, fates, net, c.phase)
  {
    assert Alone(net, c, fates, 0) == (net, c.phase);
  }

  lemma GetsThen(net: Net, c: Client, fates: Fates, mid: Net, phase: Phase, net': Net, phase': Phase)
    requires Gets(net, c, fates, mid, phase) && Gets(mid, c.(phase := phase), fates, net', phase')
    ensures Gets(net, c, fates, net', phase')
  {
    var m: nat :| Alone(net, c, fates, m) == (mid, phase);
    var n: nat :| Alone(mid, c.(phase := phase), fates, n) == (net', phase');
    AloneThen(net, c, fates, m, n);
    assert Alone(net, c, fates, m + n) == (net', phase');
  }

  lemma GetsStep(net: Net, c: Client, fates: Fates)
    ensures var r := Next(net, c, fates); Gets(net, c, fates, r.0, r.1)
  {
    assert Alone(net, c, fates, 0) == (net, c.phase);
    assert c.(phase := c.phase) == c;
    assert Alone(net, c, fates, 1) == Next(net, c, fates);
  }

  // One step, and then on.
  lemma StepThen(net: Net, c: Client, fates: Fates, net': Net, phase: Phase)
    requires var r := Next(net, c, fates); Gets(r.0, c.(phase := r.1), fates, net', phase)
    ensures Gets(net, c, fates, net', phase)
  {
    var r := Next(net, c, fates);
    GetsStep(net, c, fates);
    GetsThen(net, c, fates, r.0, r.1, net', phase);
  }

  /** Asking **/

  // Where asking targets j and up leads.
  function Asked(net: Net, p: Parcel, i: nat, j: nat, missing: seq<Endpoint>, fate: Endpoint -> Fate): Phase
    requires j <= |p.targets|
  {
    match MissingUnder(net, p.targets[j..], p.id, fate)
    case None => Aborted
    case Some(rest) => Checking(i, |p.targets|, missing + rest)
  }

  lemma AskedFrom(net: Net, p: Parcel, i: nat, j: nat, missing: seq<Endpoint>, fate: Endpoint -> Fate)
    requires j < |p.targets|
    ensures Asked(net, p, i, j, missing, fate)
         == if p.targets[j] !in net || fate(p.targets[j]).Refused? then Aborted
            else Asked(net, p, i, j + 1,
                       if Heard(fate(p.targets[j])) && p.id in net[p.targets[j]].store.meta then missing
                       else missing + [p.targets[j]], fate)
  {
    assert p.targets[j..][0] == p.targets[j] && p.targets[j..][1..] == p.targets[j + 1..];
    var rest := MissingUnder(net, p.targets[j + 1..], p.id, fate);
    if rest.Some? {
      assert missing + ([p.targets[j]] + rest.value) == (missing + [p.targets[j]]) + rest.value;
    }
  }

  lemma {:induction false} AsksAll(net: Net, c: Client, fates: Fates, i: nat, j: nat, missing: seq<Endpoint>)
    requires c.phase == Checking(i, j, missing) && i < |c.u.parcels| && j <= |c.u.parcels[i].targets|
    ensures Gets(net, c, fates, net, Asked(net, c.u.parcels[i], i, j, missing, At(fates, Asking(i))))
    decreases |c.u.parcels[i].targets| - j
  {
    var p := c.u.parcels[i];
    if j == |p.targets| {
      assert p.targets[j..] == [] && missing + [] == missing;
      GetsNowhere(net, c, fates);
    } else {
      AskedFrom(net, p, i, j, missing, At(fates, Asking(i)));
      var r := Next(net, c, fates);
      if r.1.Aborted? {
        GetsStep(net, c, fates);
      } else {
        AsksAll(net, c.(phase := r.1), fates, i, j + 1, r.1.missing);
        StepThen(net, c, fates, net, Asked(net, p, i, j, missing, At(fates, Asking(i))));
      }
    }
  }

  /** Sending **/

  lemma {:induction false} SendsAll(net: Net, c: Client, fates: Fates, i: nat, missing: seq<Endpoint>, k: nat,
                                    needed: int)
    requires c.phase == Uploading(i, missing, k, needed) && i < |c.u.parcels| && k <= |missing|
    requires needed >= |missing| - k
    ensures var p := c.u.parcels[i];
      var r := SendUnder(net, missing[k..], Framing.PutChunk(p.id, p.payload), At(fates, Sending(i)));
      Gets(net, c, fates, r.0, if r.1 then Checking(i + 1, 0, []) else Aborted)
    decreases |missing| - k
  {
    var p := c.u.parcels[i];
    if k == |missing| {
      GetsStep(net, c, fates);
    } else {
      assert missing[k..][0] == missing[k] && missing[k..][1..] == missing[k + 1..];
      var r := Next(net, c, fates);
      if r.1.Aborted? {
        GetsStep(net, c, fates);
      } else {
        SendsAll(r.0, c.(phase := r.1), fates, i, missing, k + 1, needed - 1);
        var s := SendUnder(r.0, missing[k + 1..], Framing.PutChunk(p.id, p.payload), At(fates, Sending(i)));
        StepThen(net, c, fates, s.0, if s.1 then Checking(i + 1, 0, []) else Aborted);
      }
    }
  }

  /** A chunk **/

  // When all targets have been asked.
  lemma AskedThenSends(net: Net, c: Client, fates: Fates, i: nat, missing: seq<Endpoint>)
    requires i < |c.u.parcels| && c.phase == Checking(i, |c.u.parcels[i].targets|, missing) && Placed(c)
    ensures var p := c.u.parcels[i];
      var r := SendUnder(net, missing, Framing.PutChunk(p.id, p.payload), At(fates, Sending(i)));
      Gets(net, c, fates, r.0, if r.1 then Checking(i + 1, 0, []) else Aborted)
  {
    var p := c.u.parcels[i];
    var needed := c.replicas - (|p.targets| - |missing|);
    assert missing[0..] == missing;
    SendsAll(net, c.(phase := Uploading(i, missing, 0, needed)), fates, i, missing, 0, needed);
    var r := SendUnder(net, missing, Framing.PutChunk(p.id, p.payload), At(fates, Sending(i)));
    StepThen(net, c, fates, r.0, if r.1 then Checking(i + 1, 0, []) else Aborted);
  }

  lemma OneChunk(net: Net, c: Client, fates: Fates, i: nat)
    requires c.phase == Checking(i, 0, []) && i < |c.u.parcels| && Placed(c)
    ensures var d := DeliverUnder(net, c.u.parcels[i], true, At(fates, Asking(i)), At(fates, Sending(i)));
      Gets(net, c, fates, d.0, if d.1 then Checking(i + 1, 0, []) else Aborted)
  {
    var p := c.u.parcels[i];
    var d := DeliverUnder(net, p, true, At(fates, Asking(i)), At(fates, Sending(i)));
    var missing := MissingUnder(net, p.targets, p.id, At(fates, Asking(i)));
    assert p.targets[0..] == p.targets;
    AsksAll(net, c, fates, i, 0, []);
    if missing.Some? {
      assert [] + missing.value == missing.value;
      var asked := Checking(i, |p.targets|, missing.value);
      AskedThenSends(net, c.(phase := asked), fates, i, missing.value);
      GetsThen(net, c, fates, net, asked, d.0, if d.1 then Checking(i + 1, 0, []) else Aborted);
    }
  }

  lemma {:induction false} AllChunks(net: Net, c: Client, fates: Fates, i: nat)
    requires c.phase == Checking(i, 0, []) && i <= |c.u.parcels| && Placed(c)
    ensures var d := DeliverAllUnder(net, c.u.parcels, i, true, fates);
      Gets(net, c, fates, d.0, if d.1 then Manifests(0) else Aborted)
    decreases |c.u.parcels| - i
  {
    if i == |c.u.parcels| {
      GetsStep(net, c, fates);
    } else {
      var d := DeliverUnder(net, c.u.parcels[i], true, At(fates, Asking(i)), At(fates, Sending(i)));
      OneChunk(net, c, fates, i);
      if d.1 {
        var onward := c.(phase := Checking(i + 1, 0, []));
        AllChunks(d.0, onward, fates, i + 1);
        var e := DeliverAllUnder(d.0, c.u.parcels, i + 1, true, fates);
        GetsThen(net, c, fates, d.0, onward.phase, e.0, if e.1 then Manifests(0) else Aborted);
      }
    }
  }

  /** The manifest **/

  lemma {:induction false} AllManifests(net: Net, c: Client, fates: Fates, j: nat)
    requires c.phase == Manifests(j) && j <= |c.u.manifest.targets|
    ensures var m := c.u.manifest;
      var r := SendUnder(net, m.targets[j..], Framing.PutManifest(m.id, m.payload), At(fates, Publishing));
      Gets(net, c, fates, r.0, if r.1 then Returned else Aborted)
    decreases |c.u.manifest.targets| - j
  {
    var m := c.u.manifest;
    if j == |m.targets| {
      GetsStep(net, c, fates);
    } else {
      assert m.targets[j..][0] == m.targets[j] && m.targets[j..][1..] == m.targets[j + 1..];
      var r := Next(net, c, fates);
      if r.1.Aborted? {
        GetsStep(net, c, fates);
      } else {
        AllManifests(r.0, c.(phase := r.1), fates, j + 1);
        var s := SendUnder(r.0, m.targets[j + 1..], Framing.PutManifest(m.id, m.payload), At(fates, Publishing));
        StepThen(net, c, fates, s.0, if s.1 then Returned else Aborted);
      }
    }
  }

  /**
   * Whatever becomes of its requests, a plaintext client left alone ends Returned exactly if putFile, as the upload
   * function has it under the same failures, returns, and Aborted otherwise, and leaves the peers exactly as that
   * function says.
   */
  lemma AloneIsPutFile(net: Net, c: Client, fates: Fates) returns (n: nat)
    requires c.phase == Checking(0, 0, []) && c.u.dedup && Placed(c)
    ensures var r := UploadUnder(net, c.u, fates);
      Alone(net, c, fates, n) == (r.0, if r.1 then Returned else Aborted)
  {
    var d, r := DeliverAllUnder(net, c.u.parcels, 0, true, fates), UploadUnder(net, c.u, fates);
    assert c.u.manifest.targets[0..] == c.u.manifest.targets;
    AllChunks(net, c, fates, 0);
    if d.1 {
      AllManifests(d.0, c.(phase := Manifests(0)), fates, 0);
      GetsThen(net, c, fates, d.0, Manifests(0), r.0, if r.1 then Returned else Aborted);
    }
    n :| Alone(net, c, fates, n) == (r.0, if r.1 then Returned else Aborted);
  }

  // The first n actions of a world with only this client in it.
  ghost function Advances(net: Net, c: Client, fates: Fates, n: nat): seq<Action> {
    if n == 0 then []
    else
      Advances(net, c, fates, n - 1) + [Advance(0, FateAt(fates, c.(phase := Alone(net, c, fates, n - 1).1)))]
  }

  /** And that is a run of the interleaving, with one client in it. **/
  lemma {:induction false} AloneIsRun(net: Net, c: Client, fates: Fates, n: nat)
    ensures var r := Alone(net, c, fates, n);
      Run(World(net, [c]), Advances(net, c, fates, n)) == World(r.0, [c.(phase := r.1)])
  {
    if n > 0 {
      AloneIsRun(net, c, fates, n - 1);
      var run := Advances(net, c, fates, n);
      assert run[..|run| - 1] == Advances(net, c, fates, n - 1);
      var r := Alone(net, c, fates, n - 1);
      var w := World(r.0, [c.(phase := r.1)]);
      var next := Next(r.0, c.(phase := r.1), fates);
      assert w.clients[0 := w.clients[0].(phase := next.1)] == [c.(phase := next.1)];
    } else {
      assert c.(phase := c.phase) == c;
    }
  }

  /** What a putFile that returns has achieved, whatever went wrong on the way **/

  // Nothing the client stores evicts anything.
  ghost predicate EvictsNothing(net: Net, c: Client, fates: Fates) {
    forall n: nat :: NoEvictions(World(net, [c]), Advances(net, c, fates, n))
  }

  lemma ReturnedUploadIsHeld(crypto: Crypto, net: Net, c: Client, fates: Fates)
    requires SoundNet(crypto, net) && PlainUpload(crypto, c.u) && c.u.dedup && Placed(c)
    requires c.phase == Checking(0, 0, []) && EvictsNothing(net, c, fates) && UploadUnder(net, c.u, fates).1
    ensures PlainlyHeld(crypto, UploadUnder(net, c.u, fates).0, c.u, {})
  {
    var n := AloneIsPutFile(net, c, fates);
    AloneIsRun(net, c, fates, n);
    assert NoEvictions(World(net, [c]), Advances(net, c, fates, n));
    ReturnedRunIsHeld(crypto, net, c, Advances(net, c, fates, n), UploadUnder(net, c.u, fates).0);
  }

  lemma ReturnedRunIsHeld(crypto: Crypto, net: Net, c: Client, run: seq<Action>, net': Net)
    requires SoundNet(crypto, net) && PlainUpload(crypto, c.u) && Placed(c) && c.phase == Checking(0, 0, [])
    requires NoEvictions(World(net, [c]), run) && Run(World(net, [c]), run) == World(net', [c.(phase := Returned)])
    ensures PlainlyHeld(crypto, net', c.u, {})
  {
    assert Start(crypto, World(net, [c]));
    ReturnedMeansHeld(crypto, World(net, [c]), run, 0);
  }

  /**
   * Whatever connections failed, answers were lost and peers could not write: if a plaintext putFile has returned, and
   * evicted nothing, getFile writes exactly the original bytes, despite fewer bad peers than targets.
   */
  lemma ReturnedFileIsRetrieved(crypto: Crypto, put: Config, get: Config, key: FileKey, name: string, content: string,
                                net: Net, fates: Fates, bad: set<Endpoint>, replies: Replies)
    requires Is256Bit(crypto.digest) && key.Valid() && put.peers != [] && put.chunkSize > 0 && !put.Encrypts()
    requires OneWord(name) && SoundNet(crypto, net)
    requires var u := UploadOf(crypto, put, key, name, content);
      var net' := UploadUnder(net, u, fates).0;
      && EvictsNothing(net, Client(u, put.Replicas(), Checking(0, 0, [])), fates) && UploadUnder(net, u, fates).1
      && FewBadFor(u, bad, get.peers) && Honest(net', bad, replies) && Sized(net')
      && NoCollisions(crypto, get.peers, Plain, Split(content, put.chunkSize), u.manifest.payload, replies)
    ensures Fetch(crypto, get, SHARE_PREFIX + UploadOf(crypto, put, key, name, content).manifest.id, None, replies)
         == Wrote(content, true)
    ensures LocallyToo(crypto, get, UploadOf(crypto, put, key, name, content).manifest.payload, content, replies)
  {
    var u := UploadOf(crypto, put, key, name, content);
    UploadsMayStart(crypto, put, key, name, content);
    ReturnedUploadIsHeld(crypto, net, Client(u, put.Replicas(), Checking(0, 0, [])), fates);
    FewerAreBad(crypto, Always(UploadUnder(net, u, fates).0), u, bad);
    HeldFileIsRetrieved(crypto, put, get, key, name, content, Always(UploadUnder(net, u, fates).0), bad, replies);
  }
}
