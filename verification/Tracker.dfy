/**
 * src/tracker/main.cpp: which peers are alive and who announced which chunk, pruned only when a request happens to ask
 * for it, against what the history of requests says.
 */
module Tracker {
  import opened Basics
  import opened Text

  // Nanoseconds of the steady clock.
  const TTL: int := 30_000_000_000

  datatype Command =
    | Sighting(peer: string)                 // a valid REGISTER or HEARTBEAT
    | Announce(chunk: string, peer: string)  // a valid ANNOUNCE
    | Where(chunk: string)
    | NeedRepair(desired: nat, limit: nat)
    | GetPeers
    | Invalid                                // answered with an ERR line

  datatype State = State(peers: map<string, int>, index: map<string, set<string>>)

  predicate IsPeer(ip: string, port: nat) {
    ip != "" && 0 < port <= 65535
  }

  function Entry(ip: string, port: nat): string {
    ip + ":" + NatText(port)
  }

  function WordOf(s: string): (string, string) {
    match ReadWord(s)
    case Fail => ("", "")
    case Got(w, rest) => (w, rest)
  }

  function NumberOf(s: string): (nat, string) {
    match ReadNat(s)
    case Fail => (0, "")
    case Got(n, rest) => (n, rest)
  }

  // What a request line asks for.
  function CommandOf(line: string): Command {
    var (cmd, args) := WordOf(line);
    if cmd == "REGISTER" || cmd == "HEARTBEAT" then
      var (ip, rest) := WordOf(args);
      var (port, _) := NumberOf(rest);
      if IsPeer(ip, port) then Sighting(Entry(ip, port)) else Invalid
    else if cmd == "ANNOUNCE" then
      var (chunk, rest) := WordOf(args);
      var (ip, rest') := WordOf(rest);
      var (port, _) := NumberOf(rest');
      if chunk != "" && IsPeer(ip, port) then Announce(chunk, Entry(ip, port)) else Invalid
    else if cmd == "WHERE" then
      var (chunk, _) := WordOf(args);
      if chunk != "" then Where(chunk) else Invalid
    else if cmd == "NEED_REPAIR" then
      var (desired, rest) := NumberOf(args);
      var (limit, _) := NumberOf(rest);
      NeedRepair(if desired == 0 then 2 else desired, if limit == 0 then 50 else limit)
    else if cmd == "GET_PEERS" then GetPeers
    else Invalid
  }

  function Locations(s: State, chunk: string): set<string> {
    if chunk in s.index then s.index[chunk] else {}
  }

  function Dead(s: State, now: int): set<string> {
    set e | e in s.peers && now - s.peers[e] > TTL
  }

  // prune_stale_and_cleanup: chunks are cleaned up only if some peer was found dead.
  function Prune(s: State, now: int): State {
    var dead := Dead(s, now);
    if dead == {} then s
    else State(s.peers - dead, map c | c in s.index && s.index[c] - dead != {} :: s.index[c] - dead)
  }

  function Step(s: State, now: int, cmd: Command): State {
    match cmd
    case Sighting(peer) => s.(peers := s.peers[peer := now])
    case Announce(chunk, peer) => s.(index := s.index[chunk := Locations(s, chunk) + {peer}])
    case Where(_) => s
    case NeedRepair(_, _) => Prune(s, now)
    case GetPeers => Prune(s, now)
    case Invalid => s
  }

  // The answer to WHERE: recorded locations seen within the TTL.
  function WhereSet(s: State, now: int, chunk: string): set<string> {
    set e | e in Locations(s, chunk) && e in s.peers && now - s.peers[e] <= TTL
  }

  function AliveCount(s: State, now: int, chunk: string): nat {
    |WhereSet(s, now, chunk)|
  }

  /** Histories **/

  datatype Event = Event(time: int, cmd: Command)
  type History = seq<Event>

  function Run(h: History): State {
    if h == [] then State(map[], map[]) else Step(Run(h[..|h| - 1]), h[|h| - 1].time, h[|h| - 1].cmd)
  }

  // The clock does not go back.
  ghost predicate Monotone(h: History, now: int) {
    && (forall i, j | 0 <= i < j < |h| :: h[i].time <= h[j].time)
    && (forall i | 0 <= i < |h| :: h[i].time <= now)
  }

  predicate Prunes(e: Event) {
    e.cmd.NeedRepair? || e.cmd.GetPeers?
  }

  // Where in the history the peer was last sighted.
  function LastSeen(h: History, peer: string): (k: Option<nat>)
    ensures k.Some? ==> k.value < |h| && h[k.value].cmd == Sighting(peer)
    ensures k.Some? ==> forall i | k.value < i < |h| :: h[i].cmd != Sighting(peer)
    ensures k.None? ==> forall i | 0 <= i < |h| :: h[i].cmd != Sighting(peer)
  {
    if h == [] then None
    else if h[|h| - 1].cmd == Sighting(peer) then Some(|h| - 1)
    else LastSeen(h[..|h| - 1], peer)
  }

  // Seen within the TTL.
  predicate Fresh(h: History, peer: string, now: int) {
    LastSeen(h, peer).Some? && now - h[LastSeen(h, peer).value].time <= TTL
  }

  // Seen, and since then not found expired by any pruning request.
  ghost predicate Registered(h: History, peer: string) {
    var k := LastSeen(h, peer);
    k.Some? && forall i | k.value < i < |h| && Prunes(h[i]) :: h[i].time - h[k.value].time <= TTL
  }

  // Request j is a pruning request that finds the peer registered and expired.
  ghost predicate Expels(h: History, j: nat, peer: string)
    requires j < |h|
  {
    Prunes(h[j]) && Registered(h[..j], peer) && !Fresh(h[..j], peer, h[j].time)
  }

  // Announced, and not expelled since.
  ghost predicate Located(h: History, chunk: string, peer: string) {
    exists i :: 0 <= i < |h| && h[i].cmd == Announce(chunk, peer) && NotExpelledSince(h, i, peer)
  }

  ghost predicate NotExpelledSince(h: History, i: nat, peer: string) {
    forall j | i < j < |h| :: !Expels(h, j, peer)
  }

  lemma LastSeenStep(h: History, peer: string)
    requires h != []
    ensures var n := |h| - 1;
      LastSeen(h, peer) == if h[n].cmd == Sighting(peer) then Some(n) else LastSeen(h[..n], peer)
  {
  }

  lemma PrunedPeers(s: State, now: int, peer: string)
    ensures peer in Prune(s, now).peers <==> peer in s.peers && now - s.peers[peer] <= TTL
    ensures peer in Prune(s, now).peers ==> Prune(s, now).peers[peer] == s.peers[peer]
  {
    assert peer in Dead(s, now) <==> peer in s.peers && now - s.peers[peer] > TTL;
  }

  // The peer map is the registered peers and their last sightings.
  lemma {:induction false} PeersAre(h: History, peer: string)
    ensures peer in Run(h).peers <==> Registered(h, peer)
    ensures peer in Run(h).peers ==> Run(h).peers[peer] == h[LastSeen(h, peer).value].time
  {
    if h != [] {
      var n := |h| - 1;
      var before, last := h[..n], h[n];
      PeersAre(before, peer);
      LastSeenStep(h, peer);
      PrunedPeers(Run(before), last.time, peer);
      var k := LastSeen(before, peer);
      assert forall i | 0 <= i < n :: before[i] == h[i];
      if last.cmd != Sighting(peer) && k.Some? {
        assert Registered(h, peer) <==>
          Registered(before, peer) && (Prunes(last) ==> last.time - h[k.value].time <= TTL);
      }
    }
  }

  lemma NonEmptyLocations(h: History)
    ensures forall c | c in Run(h).index :: Run(h).index[c] != {}
  {
    if h != [] {
      NonEmptyLocations(h[..|h| - 1]);
    }
  }

  lemma LocatedStep(h: History, chunk: string, peer: string)
    requires h != []
    ensures var n := |h| - 1;
      Located(h, chunk, peer) <==>
        h[n].cmd == Announce(chunk, peer) || (Located(h[..n], chunk, peer) && !Expels(h, n, peer))
  {
    var n := |h| - 1;
    var before := h[..n];
    assert forall i | 0 <= i < n :: before[i] == h[i];
    forall j | 0 <= j < n ensures Expels(h, j, peer) <==> Expels(before, j, peer) {
      assert h[..j] == before[..j];
    }
    if Located(h, chunk, peer) {
      var i :| 0 <= i < |h| && h[i].cmd == Announce(chunk, peer) && NotExpelledSince(h, i, peer);
      if i < n {
        assert NotExpelledSince(before, i, peer);
      }
    }
    if h[n].cmd == Announce(chunk, peer) {
      assert NotExpelledSince(h, n, peer);
    } else if Located(before, chunk, peer) && !Expels(h, n, peer) {
      var i :| 0 <= i < n && before[i].cmd == Announce(chunk, peer) && NotExpelledSince(before, i, peer);
      assert h[i].cmd == Announce(chunk, peer) && NotExpelledSince(h, i, peer);
    }
  }

  // The chunk index is the announcements not followed by an expulsion.
  lemma {:induction false} LocationsAre(h: History, chunk: string, peer: string)
    ensures peer in Locations(Run(h), chunk) <==> Located(h, chunk, peer)
  {
    if h != [] {
      var n := |h| - 1;
      var before, last := h[..n], h[n];
      LocationsAre(before, chunk, peer);
      LocatedStep(h, chunk, peer);
      PeersAre(before, peer);
      NonEmptyLocations(before);
      if Prunes(last) {
        var s := Run(before);
        assert peer in Dead(s, last.time) <==> Expels(h, n, peer);
        assert Run(h) == Prune(s, last.time);
        assert peer in Locations(Run(h), chunk) <==>
          peer in Locations(s, chunk) && peer !in Dead(s, last.time);
      }
    }
  }

  /**
   * WHERE answers, after any history, with exactly the peers seen within the TTL whose announcement of the chunk was
   * not followed by a pruning request that found them registered and expired.
   */
  lemma WhereAgreesWithHistory(h: History, now: int, chunk: string, peer: string)
    requires Monotone(h, now)
    ensures peer in WhereSet(Run(h), now, chunk) <==> Fresh(h, peer, now) && Located(h, chunk, peer)
  {
    PeersAre(h, peer);
    LocationsAre(h, chunk, peer);
    var k := LastSeen(h, peer);
    if Fresh(h, peer, now) {
      assert Registered(h, peer);
    }
  }

  // At every pruning request after the announcement, and now, the peer is either not yet registered or fresh.
  ghost predicate NeverSilent(h: History, since: nat, peer: string, now: int) {
    && Fresh(h, peer, now)
    && forall j | since < j < |h| && Prunes(h[j]) :: LastSeen(h[..j], peer).None? || Fresh(h[..j], peer, h[j].time)
  }

  /** A peer that announced and never went silent is always returned; a silent one never is. **/
  lemma SteadyPeersAreReturned(h: History, now: int, chunk: string, peer: string, since: nat)
    requires Monotone(h, now)
    requires since < |h| && h[since].cmd == Announce(chunk, peer) && NeverSilent(h, since, peer, now)
    ensures peer in WhereSet(Run(h), now, chunk)
  {
    WhereAgreesWithHistory(h, now, chunk, peer);
    assert NotExpelledSince(h, since, peer);
  }

  lemma SilentPeersAreNotReturned(h: History, now: int, chunk: string, peer: string)
    requires Monotone(h, now) && !Fresh(h, peer, now)
    ensures peer !in WhereSet(Run(h), now, chunk)
  {
    WhereAgreesWithHistory(h, now, chunk, peer);
  }

  // GET_PEERS, after its pruning, lists exactly the peers seen within the TTL.
  lemma GetPeersAgreesWithHistory(h: History, now: int, peer: string)
    requires Monotone(h, now)
    ensures peer in Prune(Run(h), now).peers <==> Fresh(h, peer, now)
  {
    PeersAre(h, peer);
    PrunedPeers(Run(h), now, peer);
    if Fresh(h, peer, now) {
      assert Registered(h, peer);
    }
  }

  // Pruning does not change what WHERE answers; it makes the index hold nothing but such answers and strangers.
  lemma PruneKeepsAnswers(s: State, now: int, chunk: string)
    requires forall c | c in s.index :: s.index[c] != {}
    ensures WhereSet(Prune(s, now), now, chunk) == WhereSet(s, now, chunk)
    ensures (set e | e in Locations(Prune(s, now), chunk) && e in Prune(s, now).peers) == WhereSet(s, now, chunk)
  {
    var t := Prune(s, now);
    forall e ensures e in t.peers <==> e in s.peers && now - s.peers[e] <= TTL {
      PrunedPeers(s, now, e);
    }
    forall e ensures e in t.peers ==> t.peers[e] == s.peers[e] {
      PrunedPeers(s, now, e);
    }
    forall e ensures e in Locations(t, chunk) <==> e in Locations(s, chunk) && e !in Dead(s, now) {
      if e in Locations(s, chunk) && e !in Dead(s, now) {
        assert e in s.index[chunk] - Dead(s, now);
      }
    }
  }
}
