/**
 * Where keys are placed, said of peers, names and digests alone: as many targets as there can be, the nearest ones,
 * nearest first, and as few of them moved as possible when peers come and go.
 */
module Placements {
  import opened Basics
  import opened Text
  import opened Kademlia
  import opened Ranking
  import opened Routing

  // The id under which anything is known: the first 20 bytes of its digest.
  ghost function IdOf(digest: string -> Bytes, name: string): (id: Id)
    requires Is256Bit(digest)
    ensures forall i | 0 <= i < 20 :: id[i] == digest(name)[i]
  {
    digest(name)[..20]
  }

  ghost function PeerId(digest: string -> Bytes, p: Endpoint): Id
    requires Is256Bit(digest)
  {
    IdOf(digest, p.ip + (":" + IntText(p.port)))
  }

  // The XOR distance of a peer from a key, as a number.
  ghost function Away(digest: string -> Bytes, key: string): Endpoint -> nat
    requires Is256Bit(digest)
  {
    (p: Endpoint) => Number(XorBytes(PeerId(digest, p), IdOf(digest, key)))
  }

  // The configured peers other than whoever has the client's id.
  ghost function Others(digest: string -> Bytes, peers: seq<Endpoint>): set<Endpoint>
    requires Is256Bit(digest)
  {
    set p | p in peers && PeerId(digest, p) != IdOf(digest, "client")
  }

  function Wanted(replicas: int): nat {
    if replicas <= 0 then 1 else replicas
  }

  lemma IdsAgree(digest: string -> Bytes, p: Endpoint, key: string)
    requires Is256Bit(digest)
    ensures KeyId(digest, key) == IdOf(digest, key) && SelfId(digest) == IdOf(digest, "client")
    ensures NodeId(digest, p) == PeerId(digest, p)
    ensures Away(digest, key)(p) == Distance(NodeId(digest, p), KeyId(digest, key))
  {
    KeyIdIsDigestPrefix(digest, key);
    KeyIdIsDigestPrefix(digest, "client");
    assert p.ip + ":" + IntText(p.port) == p.ip + (":" + IntText(p.port));
    KeyIdIsDigestPrefix(digest, p.ip + (":" + IntText(p.port)));
  }

  /** The table, ranked, is the peers, ranked **/

  ghost predicate Lists(all: seq<Endpoint>, some: set<Endpoint>) {
    Distinct(all) && forall p :: p in all <==> p in some
  }

  // The peers of the table, nearest first.
  function RankedPeers(digest: string -> Bytes, peers: seq<Endpoint>, key: string): seq<Endpoint> {
    Endpoints(Ranked(Table(digest, peers), DistanceTo(KeyId(digest, key))))
  }

  lemma EntryIff(digest: string -> Bytes, peers: seq<Endpoint>, n: NodeInfo)
    requires Is256Bit(digest) && NoIdClash(digest, peers)
    ensures n in Table(digest, peers) <==> n.id == NodeId(digest, n.endpoint) && n.endpoint in Others(digest, peers)
  {
    TableIsWellFormed(digest, peers);
    TableHolds(digest, peers);
    IdsAgree(digest, n.endpoint, "client");
    if n in Table(digest, peers) {
      assert IsEntry(digest, peers, n);
    }
  }

  lemma RankedPeersAre(digest: string -> Bytes, peers: seq<Endpoint>, key: string)
    requires Is256Bit(digest) && NoIdClash(digest, peers)
    ensures var r := RankedPeers(digest, peers, key);
      Lists(r, Others(digest, peers)) && Ascending(r, Away(digest, key))
  {
    var t, target := Table(digest, peers), KeyId(digest, key);
    TableIsWellFormed(digest, peers);
    DistancesDiffer(t, target);
    RankedIs(t, DistanceTo(target));
    var nodes := Ranked(t, DistanceTo(target));
    var r := RankedPeers(digest, peers, key);
    forall i | 0 <= i < |nodes|
      ensures r[i] in Others(digest, peers) && Away(digest, key)(r[i]) == DistanceTo(target)(nodes[i])
    {
      assert nodes[i] in nodes;
      EntryIff(digest, peers, nodes[i]);
      IdsAgree(digest, r[i], key);
    }
    forall p | p in Others(digest, peers) ensures p in r {
      var n := NodeInfo(NodeId(digest, p), p);
      EntryIff(digest, peers, n);
      assert n in nodes;
      var i :| 0 <= i < |nodes| && nodes[i] == n;
      assert r[i] == p;
    }
    AscendingIsDistinct(r, Away(digest, key));
  }

  lemma AscendingIsDistinct(s: seq<Endpoint>, key: Endpoint -> nat)
    requires Ascending(s, key)
    ensures Distinct(s) && Keyed(s, key)
  {
    forall x, y | x in s && y in s && key(x) == key(y) ensures x == y {
      var i :| 0 <= i < |s| && s[i] == x;
      var j :| 0 <= j < |s| && s[j] == y;
    }
  }

  // Placement takes the first of the ranking of any list of the other peers.
  lemma PlacementIsRanking(digest: string -> Bytes, peers: seq<Endpoint>, key: string, replicas: int,
                           all: seq<Endpoint>)
    requires Is256Bit(digest) && NoIdClash(digest, peers) && Lists(all, Others(digest, peers))
    ensures Keyed(all, Away(digest, key))
    ensures Placement(digest, peers, key, replicas) == First(Ranked(all, Away(digest, key)), Wanted(replicas))
  {
    var r, away := RankedPeers(digest, peers, key), Away(digest, key);
    RankedPeersAre(digest, peers, key);
    AscendingIsDistinct(r, away);
    assert Keyed(all, away);
    RankedIs(all, away);
    AscendingIsUnique(Ranked(all, away), r, away);
  }

  lemma {:induction false} ListSize(all: seq<Endpoint>, some: set<Endpoint>)
    requires Lists(all, some)
    ensures |all| == |some|
  {
    if all == [] {
      assert some == {};
    } else {
      assert all == [all[0]] + all[1..] && all[0] !in all[1..];
      ListSize(all[1..], some - {all[0]});
    }
  }

  // The k nearest to the key, nearest first, or all of them.
  ghost predicate AreNearest(digest: string -> Bytes, peers: seq<Endpoint>, key: string, k: nat, r: seq<Endpoint>)
    requires Is256Bit(digest)
  {
    var others, away := Others(digest, peers), Away(digest, key);
    && |r| == (if k <= |others| then k else |others|)
    && (forall p | p in r :: p in others)
    && (forall i, j | 0 <= i < j < |r| :: away(r[i]) < away(r[j]))
    && (forall p, q | p in r && q in others && q !in r :: away(p) < away(q))
  }

  /**
   * The targets of a key are the configured peers other than the client nearest to it: exactly as many as asked for,
   * or all there are, in strictly increasing distance, and every peer that is not one is strictly farther than all
   * that are.
   */
  lemma TargetsAreNearest(digest: string -> Bytes, peers: seq<Endpoint>, key: string, replicas: int)
    requires Is256Bit(digest) && NoIdClash(digest, peers)
    ensures AreNearest(digest, peers, key, Wanted(replicas), Placement(digest, peers, key, replicas))
    ensures |Others(digest, peers)| <= |peers|
  {
    var all := RankedPeers(digest, peers, key);
    RankedPeersAre(digest, peers, key);
    PlacementIsRanking(digest, peers, key, replicas, all);
    FirstAreLowest(all, Away(digest, key), Wanted(replicas));
    ListSize(all, Others(digest, peers));
    TableIsWellFormed(digest, peers);
    DistancesDiffer(Table(digest, peers), KeyId(digest, key));
    RankedIs(Table(digest, peers), DistanceTo(KeyId(digest, key)));
  }

  /** When peers leave, the targets that remain are still the first targets, in the same order. **/
  lemma TargetsAfterDepartures(digest: string -> Bytes, peers: seq<Endpoint>, rest: seq<Endpoint>, key: string,
                               replicas: int)
    requires Is256Bit(digest) && NoIdClash(digest, peers) && forall p | p in rest :: p in peers
    ensures Keep(Placement(digest, peers, key, replicas), (p: Endpoint) => p in rest)
         <= Placement(digest, rest, key, replicas)
  {
    var all, stays := RankedPeers(digest, peers, key), (p: Endpoint) => p in rest;
    RankedPeersAre(digest, peers, key);
    PlacementIsRanking(digest, peers, key, replicas, all);
    KeepKeepsDistinct(all, stays);
    assert Lists(Keep(all, stays), Others(digest, rest));
    PlacementIsRanking(digest, rest, key, replicas, Keep(all, stays));
    FirstOfKept(all, stays, Away(digest, key), Wanted(replicas));
  }

  /**
   * When a peer joins, it is one of the targets or it is not. If it is, the others are the targets there were, in the
   * same order, less the last of them where that makes one too many; if not, nothing changes.
   */
  lemma TargetsAfterArrival(digest: string -> Bytes, peers: seq<Endpoint>, more: seq<Endpoint>, newcomer: Endpoint,
                            key: string, replicas: int)
    requires Is256Bit(digest) && NoIdClash(digest, more) && newcomer !in peers
    requires forall p :: p in more <==> p in peers || p == newcomer
    ensures var before, after := Placement(digest, peers, key, replicas), Placement(digest, more, key, replicas);
      if newcomer in after
      then Without(after, newcomer) == First(before, Wanted(replicas) - 1)
      else after == before
  {
    var all := RankedPeers(digest, peers, key);
    RankedPeersAre(digest, peers, key);
    PlacementIsRanking(digest, peers, key, replicas, all);
    if newcomer in Others(digest, more) {
      WithNewcomer(all, Others(digest, peers), Others(digest, more), newcomer);
      PlacementIsRanking(digest, more, key, replicas, [newcomer] + all);
      FirstWithNewcomer(all, newcomer, Away(digest, key), Wanted(replicas));
    } else {
      assert Others(digest, more) == Others(digest, peers);
      PlacementIsRanking(digest, more, key, replicas, all);
      TargetsAreNearest(digest, more, key, replicas);
    }
  }

  lemma WithNewcomer(all: seq<Endpoint>, some: set<Endpoint>, more: set<Endpoint>, x: Endpoint)
    requires Lists(all, some) && x !in some && forall p :: p in more <==> p in some || p == x
    ensures Lists([x] + all, more)
  {
    DistinctCons(x, all);
  }

  lemma FirstWithNewcomer(all: seq<Endpoint>, x: Endpoint, key: Endpoint -> nat, k: nat)
    requires Distinct(all) && x !in all && Keyed([x] + all, key) && k > 0
    ensures var before, after := First(Ranked(all, key), k), First(Ranked([x] + all, key), k);
      if x in after then Without(after, x) == First(before, k - 1) else after == before
  {
    var both := [x] + all;
    assert both[1..] == all && x in both && forall y | y in all :: y in both;
    DistinctCons(x, all);
    FirstWithNew(all, x, key, k);
    FirstAreLowest(both, key, k);
    KeepIsWithout(First(Ranked(both, key), k), x, both, key);
  }

  lemma {:induction false} KeepIsWithout(some: seq<Endpoint>, x: Endpoint, all: seq<Endpoint>, key: Endpoint -> nat)
    requires Keyed(all, key) && x in all && forall y | y in some :: y in all
    ensures Keep(some, OtherKey(x, key)) == Without(some, x)
  {
    if some != [] {
      assert some == [some[0]] + some[1..];
      KeepIsWithout(some[1..], x, all, key);
      assert some[0] in all;
    }
  }
}
