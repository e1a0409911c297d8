/** The tracker's handlers as they run: two maps changed in place by loops over them. */
module TrackerService {
  import opened Tracker

  class Service {
    var peers: map<string, int>
    var index: map<string, set<string>>

    ghost function Model(): State
      reads this
    {
      State(peers, index)
    }

    // No chunk is kept without a location.
    ghost predicate Valid()
      reads this
    {
      forall c | c in index :: index[c] != {}
    }

    constructor ()
      ensures Valid() && Model() == Run([])
    {
      peers, index := map[], map[];
    }

    method Sight(now: int, peer: string)
      requires Valid()
      modifies this
      ensures Valid() && Model() == Step(old(Model()), now, Sighting(peer))
    {
      peers := peers[peer := now];
    }

    // Accepted whether or not the peer is alive, or even known.
    method AnnounceChunk(now: int, chunk: string, peer: string)
      requires Valid()
      modifies this
      ensures Valid() && Model() == Step(old(Model()), now, Announce(chunk, peer))
    {
      if chunk !in index {
        index := index[chunk := {}];
      }
      index := index[chunk := index[chunk] + {peer}];
      assert index == old(index)[chunk := Locations(old(Model()), chunk) + {peer}];
    }

    // The first loop of prune_stale_and_cleanup.
    method EraseExpired(now: int) returns (dead: set<string>)
      modifies this`peers
      ensures dead == Dead(old(Model()), now) && peers == old(peers) - dead
    {
      dead := {};
      var todo := peers.Keys;
      while todo != {}
        invariant todo <= old(peers).Keys
        invariant dead == Dead(old(Model()), now) - todo && peers == old(peers) - dead
        decreases |todo|
      {
        var it :| it in todo;
        todo := todo - {it};
        if now - peers[it] > TTL {
          dead := dead + {it};
          peers := peers - {it};
        }
      }
    }

    // Removes dead peers from the index.
    method EraseLocations(dead: set<string>)
      modifies this`index
      ensures index == map c | c in old(index) :: old(index)[c] - dead
    {
      var todo := index.Keys;
      while todo != {}
        invariant todo <= old(index).Keys && index.Keys == old(index).Keys
        invariant forall c | c in index :: index[c] == if c in todo then old(index)[c] else old(index)[c] - dead
        decreases |todo|
      {
        var c :| c in todo;
        index := index[c := index[c] - dead];
        todo := todo - {c};
      }
    }

    // Drops chunks with no locations.
    method EraseEmpty()
      modifies this`index
      ensures index == map c | c in old(index) && old(index)[c] != {} :: old(index)[c]
    {
      var todo := index.Keys;
      while todo != {}
        invariant todo <= old(index).Keys
        invariant index == map c | c in old(index) && (c in todo || old(index)[c] != {}) :: old(index)[c]
        decreases |todo|
      {
        var c :| c in todo;
        if index[c] == {} {
          index := index - {c};
        }
        todo := todo - {c};
      }
    }

    method PruneStaleAndCleanup(now: int)
      requires Valid()
      modifies this
      ensures Valid() && Model() == Prune(old(Model()), now)
    {
      var dead := EraseExpired(now);
      if dead == {} {
        assert peers == old(peers);
        return;
      }
      EraseLocations(dead);
      EraseEmpty();
      assert index == Prune(old(Model()), now).index;
    }

    // WHERE: the alive locations, one line each.
    method WhereIs(now: int, chunk: string) returns (out: seq<string>)
      ensures (set e | e in out) == WhereSet(Model(), now, chunk) && |out| == |WhereSet(Model(), now, chunk)|
    {
      out := [];
      if chunk !in index {
        return;
      }
      ghost var alive := WhereSet(Model(), now, chunk);
      ghost var listed: set<string> := {};
      var todo := index[chunk];
      while todo != {}
        invariant todo <= index[chunk]
        invariant listed == alive - todo && |out| == |listed|
        invariant forall e :: e in out <==> e in listed
        decreases |todo|
      {
        var entry :| entry in todo;
        todo := todo - {entry};
        if entry in peers && now - peers[entry] <= TTL {
          out := out + [entry];
          listed := listed + {entry};
        }
      }
      assert listed == alive;
    }

    method CountAlive(chunk: string) returns (n: nat)
      requires chunk in index
      ensures n == |set e | e in index[chunk] && e in peers|
    {
      n := 0;
      var todo := index[chunk];
      ghost var counted: set<string> := {};
      while todo != {}
        invariant todo <= index[chunk]
        invariant counted == (set e | e in index[chunk] && e in peers) - todo && n == |counted|
        decreases |todo|
      {
        var entry :| entry in todo;
        todo := todo - {entry};
        if entry in peers {
          n := n + 1;
          counted := counted + {entry};
        }
      }
      assert counted == set e | e in index[chunk] && e in peers;
    }

    // The loop of NEED_REPAIR; count says how many alive locations each chunk has.
    method ReportNeedy(desired: nat, limit: nat, ghost count: map<string, nat>) returns (out: seq<(string, nat)>)
      requires limit > 0 && count.Keys == index.Keys
      requires forall c | c in index :: count[c] == |set e | e in index[c] && e in peers|
      ensures |out| <= limit
      ensures forall i, j | 0 <= i < j < |out| :: out[i].0 != out[j].0
      ensures forall r | r in out :: r.0 in count && r.1 == count[r.0] && 0 < r.1 < desired
      ensures |out| < limit ==> forall c | c in count && 0 < count[c] < desired :: (c, count[c]) in out
    {
      out := [];
      var todo := index.Keys;
      while todo != {}
        invariant todo <= index.Keys && |out| < limit
        invariant forall i, j | 0 <= i < j < |out| :: out[i].0 != out[j].0
        invariant forall r | r in out :: r.0 in count && r.0 !in todo && r.1 == count[r.0] && 0 < r.1 < desired
        invariant forall c | c in count && c !in todo && 0 < count[c] < desired :: (c, count[c]) in out
        decreases |todo|
      {
        var c :| c in todo;
        todo := todo - {c};
        var alive := CountAlive(c);
        if 0 < alive < desired {
          forall i | 0 <= i < |out| ensures out[i].0 != c {
            assert out[i] in out;
          }
          out := out + [(c, alive)];
          if |out| >= limit {
            return;
          }
        }
      }
    }

    // NEED_REPAIR: up to limit chunks with some but fewer than desired alive locations, and how many each has.
    method ChunksToRepair(now: int, desired: nat, limit: nat) returns (out: seq<(string, nat)>)
      requires Valid() && limit > 0
      modifies this
      ensures Valid() && Model() == Step(old(Model()), now, NeedRepair(desired, limit))
      ensures |out| <= limit
      ensures forall i, j | 0 <= i < j < |out| :: out[i].0 != out[j].0
      ensures forall r | r in out :: r.1 == AliveCount(old(Model()), now, r.0) && 0 < r.1 < desired
      ensures |out| < limit ==>
                forall c | 0 < AliveCount(old(Model()), now, c) < desired ::
                  (c, AliveCount(old(Model()), now, c)) in out
    {
      ghost var s := Model();
      PruneStaleAndCleanup(now);
      ghost var count := map c | c in index :: AliveCount(s, now, c);
      forall c ensures AliveCount(s, now, c) == |set e | e in Locations(Model(), c) && e in peers| {
        PruneKeepsAnswers(s, now, c);
      }
      forall c | c !in index ensures AliveCount(s, now, c) == 0 {
        assert (set e | e in Locations(Model(), c) && e in peers) == {};
      }
      out := ReportNeedy(desired, limit, count);
    }

    // GET_PEERS: the peers left after pruning, which its own second loop leaves alone.
    method ListPeers(now: int) returns (out: set<string>)
      requires Valid()
      modifies this
      ensures Valid() && Model() == Step(old(Model()), now, GetPeers)
      ensures out == set e | e in old(peers) && now - old(peers)[e] <= TTL
    {
      ghost var s := Model();
      PruneStaleAndCleanup(now);
      forall e | e in peers ensures now - peers[e] <= TTL {
        PrunedPeers(s, now, e);
      }
      var dead := EraseExpired(now);
      assert dead == {} && peers - dead == peers;
      assert peers.Keys == set e | e in s.peers && now - s.peers[e] <= TTL by {
        forall e ensures e in peers <==> e in s.peers && now - s.peers[e] <= TTL {
          PrunedPeers(s, now, e);
        }
      }
      out := peers.Keys;
    }

    // The loop over connections: one line each, answered in turn.
    method Serve(requests: seq<Received>) returns (answers: seq<Answer>)
      requires Valid() && Model() == Run([])
      modifies this
      ensures Valid() && Model() == Run(Heard(requests)) && Answered(requests, answers)
    {
      answers := [];
      for k := 0 to |requests|
        invariant Valid() && Model() == Run(Heard(requests[..k])) && Answered(requests[..k], answers)
      {
        ghost var before, upTo := requests[..k], requests[..k + 1];
        HeardOneMore(upTo);
        assert upTo[..k] == before;
        var answer := Handle(requests[k].time, requests[k].line);
        AnsweredOneMore(upTo, answers, answer);
        answers := answers + [answer];
      }
      assert requests[..|requests|] == requests;
    }

    // One request line, from its words to the answer.
    method Handle(now: int, line: string) returns (answer: Answer)
      requires Valid()
      modifies this
      ensures Valid() && Model() == Step(old(Model()), now, CommandOf(line))
      ensures IsAnswer(old(Model()), now, CommandOf(line), answer)
    {
      match CommandOf(line) {
        case Sighting(peer) =>
          Sight(now, peer);
          answer := Accepted;
        case Announce(chunk, peer) =>
          AnnounceChunk(now, chunk, peer);
          answer := Accepted;
        case Where(chunk) =>
          var found := WhereIs(now, chunk);
          answer := Entries(set e | e in found);
        case NeedRepair(desired, limit) =>
          CommandLimit(line);
          var needy := ChunksToRepair(now, desired, limit);
          answer := Needy(needy);
        case GetPeers =>
          var alive := ListPeers(now);
          answer := Entries(alive);
        case Invalid =>
          answer := Rejected;
      }
    }
  }

  /** A line that has come in, and when. **/
  datatype Received = Received(time: int, line: string)

  function Heard(requests: seq<Received>): (h: History)
    ensures |h| == |requests|
  {
    seq(|requests|, i requires 0 <= i < |requests| => Event(requests[i].time, CommandOf(requests[i].line)))
  }

  // Each line is answered from what the tracker knew when it came.
  ghost predicate AnsweredAt(requests: seq<Received>, answers: seq<Answer>, n: nat)
    requires n < |requests| && n < |answers|
  {
    IsAnswer(Run(Heard(requests[..n])), requests[n].time, CommandOf(requests[n].line), answers[n])
  }

  ghost predicate Answered(requests: seq<Received>, answers: seq<Answer>) {
    |answers| == |requests| && forall n | 0 <= n < |requests| :: AnsweredAt(requests, answers, n)
  }

  lemma HeardOneMore(requests: seq<Received>)
    requires requests != []
    ensures var n := |requests| - 1;
      Run(Heard(requests)) == Step(Run(Heard(requests[..n])), requests[n].time, CommandOf(requests[n].line))
  {
    var n := |requests| - 1;
    assert Heard(requests)[..n] == Heard(requests[..n]);
  }

  lemma AnsweredOneMore(requests: seq<Received>, answers: seq<Answer>, answer: Answer)
    requires requests != [] && Answered(requests[..|requests| - 1], answers)
    requires var n := |requests| - 1;
      IsAnswer(Run(Heard(requests[..n])), requests[n].time, CommandOf(requests[n].line), answer)
    ensures Answered(requests, answers + [answer])
  {
    var before := requests[..|requests| - 1];
    forall n | 0 <= n < |requests| ensures AnsweredAt(requests, answers + [answer], n) {
      if n < |before| {
        assert before[..n] == requests[..n];
        assert AnsweredAt(before, answers, n);
      }
    }
  }

  datatype Answer =
    | Accepted
    | Rejected
    | Entries(entries: set<string>)
    | Needy(chunks: seq<(string, nat)>)

  // What each command is to be answered with.
  ghost predicate IsAnswer(s: State, now: int, cmd: Command, answer: Answer) {
    match cmd
    case Sighting(_) => answer == Accepted
    case Announce(_, _) => answer == Accepted
    case Where(chunk) => answer == Entries(WhereSet(s, now, chunk))
    case NeedRepair(desired, limit) =>
      && answer.Needy? && |answer.chunks| <= limit
      && (forall r | r in answer.chunks :: r.1 == AliveCount(s, now, r.0) && 0 < r.1 < desired)
      && (|answer.chunks| < limit ==>
            forall c | 0 < AliveCount(s, now, c) < desired :: (c, AliveCount(s, now, c)) in answer.chunks)
    case GetPeers => answer == Entries(set e | e in s.peers && now - s.peers[e] <= TTL)
    case Invalid => answer == Rejected
  }

  lemma CommandLimit(line: string)
    ensures CommandOf(line).NeedRepair? ==> CommandOf(line).limit > 0 && CommandOf(line).desired > 0
  {
  }
}
