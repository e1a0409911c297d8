/**
 * The tracker from the outside: lines that come in at certain times, and what is answered to them. Nothing is assumed
 * of the lines in between.
 */
module TrackerLines {
  import opened Text
  import opened Words
  import opened Readings
  import opened Tracker
  import opened TrackerService

  // Thirty seconds, on a clock that counts nanoseconds.
  const THIRTY_SECONDS: int := 30 * 1_000_000_000

  // REGISTER or HEARTBEAT, an address and a port.
  ghost predicate Registers(line: string, peer: string) {
    var ws := WordsOf(line);
    && |ws| >= 3 && (ws[0] == "REGISTER" || ws[0] == "HEARTBEAT")
    && 1 <= Leading(ws[2]) <= 65535 && peer == ws[1] + ":" + NatText(Leading(ws[2]))
  }

  // ANNOUNCE, a chunk, an address and a port.
  ghost predicate Announces(line: string, chunk: string, peer: string) {
    var ws := WordsOf(line);
    && |ws| >= 4 && ws[0] == "ANNOUNCE" && ws[1] == chunk
    && 1 <= Leading(ws[3]) <= 65535 && peer == ws[2] + ":" + NatText(Leading(ws[3]))
  }

  ghost predicate Asks(line: string, chunk: string) {
    var ws := WordsOf(line);
    |ws| >= 2 && ws[0] == "WHERE" && ws[1] == chunk
  }

  /** Lines as a peer writes them **/

  lemma NumberText(n: nat)
    ensures IsNumber(NatText(n)) && Leading(NatText(n)) == n
  {
    NatRoundTrip(n);
    NumberIsLeading(NatText(n));
  }

  lemma OneWordAfter(cmd: string, w: string)
    requires IsToken(cmd) && IsToken(w)
    ensures WordsOf(cmd + Joined([w])) == [cmd, w]
  {
    assert forall v | v in [w] :: IsToken(v);
    LineWords(cmd, [w]);
  }

  lemma PeerAfter(cmd: string, ip: string, port: nat)
    requires IsToken(cmd) && IsToken(ip)
    ensures WordsOf(cmd + Joined([ip, NatText(port)])) == [cmd, ip, NatText(port)]
  {
    assert forall v | v in [ip, NatText(port)] :: IsToken(v);
    LineWords(cmd, [ip, NatText(port)]);
  }

  lemma ChunkAndPeerAfter(cmd: string, chunk: string, ip: string, port: nat)
    requires IsToken(cmd) && IsToken(chunk) && IsToken(ip)
    ensures WordsOf(cmd + Joined([chunk, ip, NatText(port)])) == [cmd, chunk, ip, NatText(port)]
  {
    assert forall v | v in [chunk, ip, NatText(port)] :: IsToken(v);
    LineWords(cmd, [chunk, ip, NatText(port)]);
  }

  /** What the lines look like, one blank between words. **/
  lemma RegisterAsWritten(ip: string, port: nat)
    requires IsToken(ip) && 1 <= port <= 65535
    ensures Registers("REGISTER" + Joined([ip, NatText(port)]), ip + ":" + NatText(port))
    ensures Registers("HEARTBEAT" + Joined([ip, NatText(port)]), ip + ":" + NatText(port))
  {
    NumberText(port);
    PeerAfter("REGISTER", ip, port);
    PeerAfter("HEARTBEAT", ip, port);
  }

  lemma AnnounceAsWritten(chunk: string, ip: string, port: nat)
    requires IsToken(chunk) && IsToken(ip) && 1 <= port <= 65535
    ensures Announces("ANNOUNCE" + Joined([chunk, ip, NatText(port)]), chunk, ip + ":" + NatText(port))
    ensures Asks("WHERE" + Joined([chunk]), chunk)
  {
    NumberText(port);
    ChunkAndPeerAfter("ANNOUNCE", chunk, ip, port);
    OneWordAfter("WHERE", chunk);
  }

  lemma {:induction false} NumbersAfter(cmd: string, ns: seq<nat>) returns (ws: seq<string>)
    requires IsToken(cmd)
    ensures |ws| == |ns| && forall i | 0 <= i < |ns| :: ws[i] == NatText(ns[i])
    ensures WordsOf(cmd + Joined(ws)) == [cmd] + ws
  {
    ws := seq(|ns|, i requires 0 <= i < |ns| => NatText(ns[i]));
    LineWords(cmd, ws);
  }

  // NEED_REPAIR and up to two numbers; 0, like nothing at all, stands for the defaults.
  lemma RepairAsWritten(ns: seq<nat>) returns (ws: seq<string>)
    requires |ns| <= 2
    ensures |ws| == |ns| && forall i | 0 <= i < |ns| :: ws[i] == NatText(ns[i])
    ensures CommandOf("NEED_REPAIR" + Joined(ws))
         == NeedRepair(if |ns| < 1 || ns[0] == 0 then 2 else ns[0], if |ns| < 2 || ns[1] == 0 then 50 else ns[1])
  {
    ws := NumbersAfter("NEED_REPAIR", ns);
    RepairIn(ws, ns);
    CommandIsRead("NEED_REPAIR" + Joined(ws));
  }

  lemma RepairIn(ws: seq<string>, ns: seq<nat>)
    requires |ns| <= 2 && |ws| == |ns| && forall i | 0 <= i < |ns| :: ws[i] == NatText(ns[i])
    ensures CommandIn(["NEED_REPAIR"] + ws)
         == NeedRepair(if |ns| < 1 || ns[0] == 0 then 2 else ns[0], if |ns| < 2 || ns[1] == 0 then 50 else ns[1])
  {
    forall i | 0 <= i < |ns| ensures IsNumber(ws[i]) && Leading(ws[i]) == ns[i] {
      NumberText(ns[i]);
    }
  }

  /** Which lines do what **/

  lemma RegisterIff(line: string, peer: string)
    ensures CommandOf(line) == Sighting(peer) <==> Registers(line, peer)
  {
    CommandIsRead(line);
  }

  lemma AnnounceIff(line: string, chunk: string, peer: string)
    ensures CommandOf(line) == Announce(chunk, peer) <==> Announces(line, chunk, peer)
  {
    CommandIsRead(line);
  }

  lemma AskIff(line: string, chunk: string)
    ensures CommandOf(line) == Where(chunk) <==> Asks(line, chunk)
  {
    CommandIsRead(line);
  }

  // Registers or announces something.
  ghost predicate Tells(line: string) {
    (exists peer :: Registers(line, peer)) || (exists chunk, peer :: Announces(line, chunk, peer))
  }

  // A query, two of which need nothing but their first word.
  ghost predicate Queries(line: string) {
    (exists chunk :: Asks(line, chunk)) || WordAt(WordsOf(line), 0) == "NEED_REPAIR"
    || WordAt(WordsOf(line), 0) == "GET_PEERS"
  }

  /** A line is rejected exactly if it is none of these. **/
  lemma RejectedIff(line: string)
    ensures CommandOf(line) == Invalid <==> !Tells(line) && !Queries(line)
    ensures CommandOf(line).Sighting? || CommandOf(line).Announce? <==> Tells(line)
  {
    CommandIsRead(line);
    match CommandOf(line)
    case Sighting(peer) => RegisterIff(line, peer);
    case Announce(chunk, peer) => AnnounceIff(line, chunk, peer);
    case Where(chunk) => AskIff(line, chunk);
    case NeedRepair(_, _) =>
    case GetPeers =>
    case Invalid =>
      forall peer ensures !Registers(line, peer) { RegisterIff(line, peer); }
      forall chunk, peer ensures !Announces(line, chunk, peer) { AnnounceIff(line, chunk, peer); }
      forall chunk ensures !Asks(line, chunk) { AskIff(line, chunk); }
  }

  /** What is answered **/

  // Lines come in one after the other.
  ghost predicate Orderly(requests: seq<Received>) {
    forall i, j | 0 <= i < j < |requests| :: requests[i].time <= requests[j].time
  }

  // Seen less than thirty seconds, or thirty seconds, before line n.
  ghost predicate SeenBefore(requests: seq<Received>, n: nat, peer: string)
    requires n < |requests|
  {
    exists i :: 0 <= i < n && Registers(requests[i].line, peer)
                && requests[n].time - requests[i].time <= THIRTY_SECONDS
  }

  lemma {:induction false} LastSeenIsLatest(h: History, peer: string, i: nat)
    requires i < |h| && h[i].cmd == Sighting(peer)
    ensures LastSeen(h, peer).Some? && LastSeen(h, peer).value >= i
  {
  }

  lemma HistoryBefore(requests: seq<Received>, n: nat)
    requires Orderly(requests) && n < |requests|
    ensures var h := Heard(requests[..n]);
      && |h| == n && Monotone(h, requests[n].time)
      && forall i | 0 <= i < n :: h[i] == Event(requests[i].time, CommandOf(requests[i].line))
  {
    var h := Heard(requests[..n]);
    assert forall i | 0 <= i < n :: h[i] == Event(requests[i].time, CommandOf(requests[i].line));
  }

  lemma SightingsAre(requests: seq<Received>, n: nat, peer: string, i: nat)
    requires i < n < |requests|
    ensures var e := Heard(requests[..n])[i];
      e.time == requests[i].time && (e.cmd == Sighting(peer) <==> Registers(requests[i].line, peer))
  {
    RegisterIff(requests[i].line, peer);
  }

  lemma SeenIsFresh(h: History, peer: string, i: nat, now: int)
    requires Monotone(h, now) && i < |h| && h[i].cmd == Sighting(peer) && now - h[i].time <= THIRTY_SECONDS
    ensures Fresh(h, peer, now)
  {
    LastSeenIsLatest(h, peer, i);
  }

  lemma FreshIff(requests: seq<Received>, n: nat, peer: string)
    requires Orderly(requests) && n < |requests|
    ensures Fresh(Heard(requests[..n]), peer, requests[n].time) <==> SeenBefore(requests, n, peer)
  {
    var h, now := Heard(requests[..n]), requests[n].time;
    HistoryBefore(requests, n);
    if SeenBefore(requests, n, peer) {
      var i :| 0 <= i < n && Registers(requests[i].line, peer) && now - requests[i].time <= THIRTY_SECONDS;
      SightingsAre(requests, n, peer, i);
      SeenIsFresh(h, peer, i, now);
    }
    if Fresh(h, peer, now) {
      var k := LastSeen(h, peer).value;
      SightingsAre(requests, n, peer, k);
      assert Registers(requests[k].line, peer) && now - requests[k].time <= THIRTY_SECONDS;
    }
  }

  // Registered before it announced, and lately enough for every pruning since.
  lemma NotSilentSince(requests: seq<Received>, i: nat, j: nat, n: nat, peer: string)
    requires Orderly(requests) && i < j < n < |requests|
    requires Registers(requests[i].line, peer) && requests[n].time - requests[i].time <= THIRTY_SECONDS
    ensures NeverSilent(Heard(requests[..n]), j, peer, requests[n].time)
  {
    var h, now := Heard(requests[..n]), requests[n].time;
    HistoryBefore(requests, n);
    FreshIff(requests, n, peer);
    RegisterIff(requests[i].line, peer);
    forall m | j < m < |h| ensures Fresh(h[..m], peer, h[m].time) {
      StillFresh(h, i, m, peer, now);
    }
  }

  lemma StillFresh(h: History, i: nat, m: nat, peer: string, now: int)
    requires Monotone(h, now) && i < m < |h| && h[i].cmd == Sighting(peer) && now - h[i].time <= TTL
    ensures Fresh(h[..m], peer, h[m].time)
  {
    LastSeenIsLatest(h[..m], peer, i);
    var k := LastSeen(h[..m], peer).value;
    assert h[..m][k] == h[k];
  }

  /**
   * What WHERE lists: every peer that registered and then announced the chunk, if it registered within the last thirty
   * seconds; never one that did not announce it, and never one that has not registered within the last thirty seconds.
   */
  lemma WhereListsAnnouncers(requests: seq<Received>, answers: seq<Answer>, n: nat, chunk: string, peer: string)
    requires Orderly(requests) && Answered(requests, answers) && n < |requests| && Asks(requests[n].line, chunk)
    ensures answers[n].Entries?
    ensures (exists i, j :: 0 <= i < j < n && Registers(requests[i].line, peer)
                            && requests[n].time - requests[i].time <= THIRTY_SECONDS
                            && Announces(requests[j].line, chunk, peer))
            ==> peer in answers[n].entries
    ensures peer in answers[n].entries
            ==> SeenBefore(requests, n, peer)
                && exists j :: 0 <= j < n && Announces(requests[j].line, chunk, peer)
  {
    var h, now := Heard(requests[..n]), requests[n].time;
    assert AnsweredAt(requests, answers, n);
    AskIff(requests[n].line, chunk);
    HistoryBefore(requests, n);
    FreshIff(requests, n, peer);
    forall j | 0 <= j < n ensures h[j].cmd == Announce(chunk, peer) <==> Announces(requests[j].line, chunk, peer) {
      AnnounceIff(requests[j].line, chunk, peer);
    }
    WhereAgreesWithHistory(h, now, chunk, peer);
    if i, j :| 0 <= i < j < n && Registers(requests[i].line, peer)
               && now - requests[i].time <= THIRTY_SECONDS && Announces(requests[j].line, chunk, peer) {
      NotSilentSince(requests, i, j, n, peer);
      SteadyPeersAreReturned(h, now, chunk, peer, j);
    }
  }

  /** OK is the answer to what tells something, an error to what is neither that nor a query. **/
  lemma OkOrError(requests: seq<Received>, answers: seq<Answer>, n: nat)
    requires Orderly(requests) && Answered(requests, answers) && n < |requests|
    ensures answers[n] == Accepted <==> Tells(requests[n].line)
    ensures answers[n] == Rejected <==> !Tells(requests[n].line) && !Queries(requests[n].line)
  {
    assert AnsweredAt(requests, answers, n);
    RejectedIff(requests[n].line);
  }

  /** GET_PEERS lists exactly the peers that have registered within the last thirty seconds. **/
  lemma PeersListedAreSeen(requests: seq<Received>, answers: seq<Answer>, n: nat, peer: string)
    requires Orderly(requests) && Answered(requests, answers) && n < |requests|
    requires var ws := WordsOf(requests[n].line); ws != [] && ws[0] == "GET_PEERS"
    ensures answers[n].Entries? && (peer in answers[n].entries <==> SeenBefore(requests, n, peer))
  {
    var h, now := Heard(requests[..n]), requests[n].time;
    assert AnsweredAt(requests, answers, n);
    CommandIsRead(requests[n].line);
    HistoryBefore(requests, n);
    FreshIff(requests, n, peer);
    GetPeersAgreesWithHistory(h, now, peer);
    PrunedPeers(Run(h), now, peer);
  }

  /**
   * NEED_REPAIR reports chunks with some, but fewer than the desired number of peers that WHERE would list, and that
   * number; all of them, unless the limit cuts the report short.
   */
  lemma RepairsAreShort(requests: seq<Received>, answers: seq<Answer>, n: nat, chunk: string)
    requires Orderly(requests) && Answered(requests, answers) && n < |requests|
    requires CommandOf(requests[n].line).NeedRepair?
    ensures var NeedRepair(desired, limit) := CommandOf(requests[n].line);
      var h, now := Heard(requests[..n]), requests[n].time;
      var alive := |WhereSet(Run(h), now, chunk)|;
      && answers[n].Needy? && |answers[n].chunks| <= limit
      && (forall count | (chunk, count) in answers[n].chunks :: count == alive && 0 < alive < desired)
      && (|answers[n].chunks| < limit && 0 < alive < desired ==> (chunk, alive) in answers[n].chunks)
  {
    assert AnsweredAt(requests, answers, n);
    var h, now := Heard(requests[..n]), requests[n].time;
    assert AliveCount(Run(h), now, chunk) == |WhereSet(Run(h), now, chunk)|;
  }
}
