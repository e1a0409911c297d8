/** A peer over a whole run of requests: what is served is what was last put and acknowledged. **/
module PeerRuns {
  import opened Basics
  import opened Store
  import opened Recency
  import opened StoreRuns
  import opened Peers
  import opened RoundTrip
  import opened Framing

  // A request, and how the file system takes what it has the peer write.
  datatype Served = Served(r: Request, write: Write)

  ghost function Serve(p: Peer, run: seq<Served>): Peer {
    if run == [] then p
    else
      var before, last := run[..|run| - 1], run[|run| - 1];
      PeerStep(Serve(p, before), last.r, last.write)
  }

  // The text of the last PUT_MANIFEST under id that was acknowledged.
  ghost function LastManifest(p: Peer, run: seq<Served>, id: string): Option<string> {
    if run == [] then None
    else
      var before, last := run[..|run| - 1], run[|run| - 1];
      if last.r.PutManifest? && last.r.id == id && Acknowledges(Serve(p, before), last) then Some(last.r.text)
      else LastManifest(p, before, id)
  }

  // And the bytes of the last PUT_CHUNK.
  ghost function LastChunk(p: Peer, run: seq<Served>, id: string): Option<string> {
    if run == [] then None
    else
      var before, last := run[..|run| - 1], run[|run| - 1];
      if last.r.PutChunk? && last.r.id == id && Acknowledges(Serve(p, before), last) then Some(last.r.data)
      else LastChunk(p, before, id)
  }

  ghost predicate Acknowledges(p: Peer, s: Served) {
    StartsWithOk(PeerReply(p, s.r, s.write))
  }

  function Held(files: map<string, string>, id: string): Option<string> {
    if id in files then Some(files[id]) else None
  }

  function OrElse(a: Option<string>, b: Option<string>): Option<string> {
    if a.Some? then a else b
  }

  lemma OkStarts()
    ensures StartsWithOk("OK\n") && !StartsWithOk("ERR\n") && !StartsWithOk("")
  {
    assert "OK\n"[..2] == "OK" && "ERR\n"[..2][0] == 'E';
  }

  /** Manifests **/

  lemma ManifestStep(p: Peer, s: Served, id: string)
    ensures Held(PeerStep(p, s.r, s.write).manifests, id)
         == if s.r.PutManifest? && s.r.id == id && Acknowledges(p, s) then Some(s.r.text) else Held(p.manifests, id)
  {
    OkStarts();
    OnlyPutsChange(p, s.r, s.write);
  }

  lemma {:induction false} ManifestsHeld(p: Peer, run: seq<Served>, id: string)
    ensures Held(Serve(p, run).manifests, id) == OrElse(LastManifest(p, run, id), Held(p.manifests, id))
  {
    if run != [] {
      ManifestsHeld(p, run[..|run| - 1], id);
      ManifestStep(Serve(p, run[..|run| - 1]), run[|run| - 1], id);
    }
  }

  // A file whose size fits 64 bits.
  predicate Fitting(data: Option<string>) {
    data.Some? ==> |data.value| < TWO_TO_64
  }

  // What GET_MANIFEST is answered with, as the client reads it, and what HAS_MANIFEST is.
  lemma ManifestReplies(p: Peer, id: string)
    requires Fitting(Held(p.manifests, id))
    ensures DataOf(PeerReply(p, GetManifest(id), Complete)) == Held(p.manifests, id)
    ensures StartsWithOk(PeerReply(p, HasManifest(id), Complete)) <==> id in p.manifests
  {
    OkStarts();
    ErrIsNoData();
    if id in p.manifests {
      DataReplyRead(p.manifests[id]);
    }
  }

  /**
   * After any run of requests, GET_MANIFEST is answered with the text of the last acknowledged PUT_MANIFEST under that
   * id, or with what was there at the start, and HAS_MANIFEST with whether there is any such text.
   */
  lemma ManifestsAreServed(p: Peer, run: seq<Served>, id: string)
    requires Fitting(Held(Serve(p, run).manifests, id))
    ensures var t := Serve(p, run); var text := OrElse(LastManifest(p, run, id), Held(p.manifests, id));
      && DataOf(PeerReply(t, GetManifest(id), Complete)) == text
      && (StartsWithOk(PeerReply(t, HasManifest(id), Complete)) <==> text.Some?)
  {
    ManifestsHeld(p, run, id);
    ManifestReplies(Serve(p, run), id);
  }

  /** Chunks **/

  lemma ChunkStep(p: Peer, s: Served, id: string)
    ensures var now := Held(PeerStep(p, s.r, s.write).store.files, id);
      now.None? || now == if s.r.PutChunk? && s.r.id == id && Acknowledges(p, s) then Some(s.r.data)
                          else Held(p.store.files, id)
  {
    OkStarts();
    OnlyPutsChange(p, s.r, s.write);
    if s.r.PutChunk? && id in PeerStep(p, s.r, s.write).store.files {
      StepFiles(p.store, Put(s.r.id, s.r.data, s.write), id);
    }
  }

  lemma {:induction false} ChunksHeld(p: Peer, run: seq<Served>, id: string)
    ensures var now := Held(Serve(p, run).store.files, id);
      now.None? || now == OrElse(LastChunk(p, run, id), Held(p.store.files, id))
  {
    if run != [] {
      ChunksHeld(p, run[..|run| - 1], id);
      ChunkStep(Serve(p, run[..|run| - 1]), run[|run| - 1], id);
    }
  }

  /** Nothing can be put without an id: the answer is an error, and nothing changes. **/
  lemma NamelessIsRefused(p: Peer, data: string, write: Write)
    ensures PeerStep(p, PutChunk("", data), write) == p && PeerStep(p, PutManifest("", data), write) == p
    ensures !Acknowledges(p, Served(PutChunk("", data), write))
    ensures !Acknowledges(p, Served(PutManifest("", data), write))
  {
    OkStarts();
  }

  // GET_CHUNK serves the file, and HAS_CHUNK says yes exactly where it serves something.
  lemma ChunkReplies(p: Peer, id: string)
    requires Fitting(Held(p.store.files, id))
    ensures DataOf(PeerReply(p, GetChunk(id), Complete)) == Held(p.store.files, id)
    ensures Agree(p.store) ==> (StartsWithOk(PeerReply(p, HasChunk(id), Complete)) <==> id in p.store.files)
  {
    OkStarts();
    ErrIsNoData();
    if Agree(p.store) {
      assert id in p.store.meta.Keys <==> id in p.store.files.Keys;
    }
    if id in p.store.files {
      DataReplyRead(p.store.files[id]);
    }
  }

  // Ids of chunks are names that no temporary file can have.
  ghost predicate ChunkNames(run: seq<Served>) {
    forall n | 0 <= n < |run| && run[n].r.PutChunk? :: run[n].r.id == "" || IsChunkId(run[n].r.id)
  }

  lemma {:induction false} ServeAgrees(p: Peer, run: seq<Served>)
    requires Agree(p.store) && ChunkNames(run)
    ensures Agree(Serve(p, run).store)
  {
    if run != [] {
      var m := |run| - 1;
      ServeAgrees(p, run[..m]);
      var t, r := Serve(p, run[..m]), run[m].r;
      OnlyPutsChange(t, r, run[m].write);
      if r.PutChunk? {
        StepKeepsAgreement(t.store, Put(r.id, r.data, run[m].write));
      } else if r.GetChunk? {
        StepKeepsAgreement(t.store, Get(r.id));
      }
    }
  }

  /**
   * After any run of requests, failing writes included, whatever GET_CHUNK serves is the last chunk put there and
   * acknowledged, or, if there was none, what was held at the start; and HAS_CHUNK says yes exactly if it serves any.
   */
  lemma ChunksAreServed(p: Peer, run: seq<Served>, id: string)
    requires Agree(p.store) && ChunkNames(run) && Fitting(Held(Serve(p, run).store.files, id))
    ensures var t := Serve(p, run); var data := DataOf(PeerReply(t, GetChunk(id), Complete));
      && (StartsWithOk(PeerReply(t, HasChunk(id), Complete)) <==> data.Some?)
      && (data.Some? ==> data == OrElse(LastChunk(p, run, id), Held(p.store.files, id)))
  {
    ServeAgrees(p, run);
    ChunksHeld(p, run, id);
    ChunkReplies(Serve(p, run), id);
  }
}
