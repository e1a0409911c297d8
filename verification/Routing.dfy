/**
 * src/core/dht/kademlia_routing_table.cpp and src/core/dht/dht_node.cpp: a table of nodes with unique ids, the nodes
 * nearest to a key, and the peers on which a key is placed.
 */
module Routing {
  import opened Basics
  import opened Text
  import opened Kademlia
  import opened Ranking

  datatype Endpoint = Endpoint(ip: string, port: int)
  datatype NodeInfo = NodeInfo(id: Id, endpoint: Endpoint)
  type Nodes = seq<NodeInfo>

  ghost predicate UniqueIds(nodes: Nodes) {
    forall m, n | m in nodes && n in nodes && m.id == n.id :: m == n
  }

  ghost predicate WellFormed(nodes: Nodes) {
    UniqueIds(nodes) && Distinct(nodes)
  }

  // addNode on the list of nodes: replace the endpoint of the entry with the same id, or append.
  function Upsert(nodes: Nodes, node: NodeInfo): Nodes {
    if nodes == [] then [node]
    else if nodes[0].id == node.id then [node] + nodes[1..]
    else [nodes[0]] + Upsert(nodes[1..], node)
  }

  function AddNode(nodes: Nodes, selfId: Id, node: NodeInfo): Nodes {
    if node.id == selfId then nodes else Upsert(nodes, node)
  }

  lemma {:induction false} UpsertAt(nodes: Nodes, node: NodeInfo, i: nat)
    requires i <= |nodes| && forall j | 0 <= j < i :: nodes[j].id != node.id
    requires i < |nodes| ==> nodes[i].id == node.id
    ensures Upsert(nodes, node) == if i < |nodes| then nodes[i := node] else nodes + [node]
  {
    if i > 0 {
      UpsertAt(nodes[1..], node, i - 1);
    }
  }

  lemma {:induction false} UpsertIs(nodes: Nodes, node: NodeInfo)
    requires WellFormed(nodes)
    ensures forall n :: n in Upsert(nodes, node) <==> n == node || (n in nodes && n.id != node.id)
    ensures WellFormed(Upsert(nodes, node))
  {
    if nodes != [] {
      var rest := nodes[1..];
      assert nodes == [nodes[0]] + rest;
      assert forall n :: n in nodes <==> n == nodes[0] || n in rest;
      if nodes[0].id == node.id {
        assert forall n | n in rest :: n.id != node.id;
        DistinctCons(node, rest);
      } else {
        UpsertIs(rest, node);
        DistinctCons(nodes[0], Upsert(rest, node));
      }
    }
  }

  /** Nearest first **/

  function DistanceTo(target: Id): NodeInfo -> nat {
    (n: NodeInfo) => Distance(n.id, target)
  }

  // The k nodes nearest to target, nearest first.
  function Closest(nodes: Nodes, target: Id, k: nat): Nodes {
    First(Ranked(nodes, DistanceTo(target)), k)
  }

  lemma DistancesDiffer(nodes: Nodes, target: Id)
    requires UniqueIds(nodes)
    ensures Keyed(nodes, DistanceTo(target))
  {
    forall m, n | m in nodes && n in nodes && DistanceTo(target)(m) == DistanceTo(target)(n) ensures m == n {
      DistanceInjective(m.id, n.id, target);
    }
  }

  // What std::sort promises, and no more: a rearrangement in which no element comes after a farther one.
  ghost predicate SortOutcome(nodes: Nodes, sorted: Nodes, target: Id) {
    && multiset(sorted) == multiset(nodes)
    && forall i, j | 0 <= i < j < |sorted| :: !CloserTo(sorted[j].id, sorted[i].id, target)
  }

  /** On a table with unique ids every such outcome is the same: the sort being unstable does not show. **/
  lemma SortHasOneOutcome(nodes: Nodes, sorted: Nodes, target: Id)
    requires WellFormed(nodes) && SortOutcome(nodes, sorted, target)
    ensures sorted == Ranked(nodes, DistanceTo(target))
  {
    var key := DistanceTo(target);
    DistancesDiffer(nodes, target);
    RankedIs(nodes, key);
    forall n ensures n in sorted <==> n in nodes {
      assert n in multiset(sorted) <==> n in multiset(nodes);
    }
    DistinctByMultiset(nodes, sorted);
    forall i, j | 0 <= i < j < |sorted| ensures key(sorted[i]) < key(sorted[j]) {
      CloserIsSmallerDistance(sorted[j].id, sorted[i].id, target);
      assert sorted[i] in sorted && sorted[j] in sorted && sorted[i] != sorted[j];
    }
    AscendingIsUnique(sorted, Ranked(nodes, key), key);
  }

  lemma DistinctByMultiset(s: Nodes, t: Nodes)
    requires Distinct(s) && multiset(s) == multiset(t)
    ensures Distinct(t)
  {
    forall i, j | 0 <= i < j < |t| ensures t[i] != t[j] {
      if t[i] == t[j] {
        var a, b := t[..j], t[j..];
        assert t == a + b;
        assert t[i] in multiset(a) by { assert a[i] == t[i]; }
        assert t[i] in multiset(b) by { assert b[0] == t[i]; }
        assert multiset(t)[t[i]] == multiset(a)[t[i]] + multiset(b)[t[i]] >= 2;
        OnceInDistinct(s, t[i]);
      }
    }
  }

  lemma {:induction false} OnceInDistinct(s: Nodes, n: NodeInfo)
    requires Distinct(s)
    ensures multiset(s)[n] <= 1
  {
    if s != [] {
      assert s == [s[0]] + s[1..];
      OnceInDistinct(s[1..], n);
      if n == s[0] {
        assert n !in s[1..];
      }
    }
  }

  /**
   * closestNodes: min(k, n) nodes of the table, all different, in strictly increasing distance, and every node left out
   * is strictly farther than every node returned. Asking for more only adds farther nodes at the end.
   */
  lemma ClosestAreNearest(nodes: Nodes, target: Id, k: nat)
    requires WellFormed(nodes)
    ensures var r := Closest(nodes, target, k);
      && |r| == (if k <= |nodes| then k else |nodes|)
      && (forall n | n in r :: n in nodes)
      && (forall i, j | 0 <= i < j < |r| :: r[i].id != r[j].id && CloserTo(r[i].id, r[j].id, target))
      && (forall m, n | m in r && n in nodes && n !in r :: CloserTo(m.id, n.id, target))
      && (forall k' | k' >= k :: r <= Closest(nodes, target, k'))
  {
    var key := DistanceTo(target);
    DistancesDiffer(nodes, target);
    FirstAreLowest(nodes, key, k);
    var r := Closest(nodes, target, k);
    forall i, j | 0 <= i < j < |r| ensures r[i].id != r[j].id && CloserTo(r[i].id, r[j].id, target) {
      assert key(r[i]) < key(r[j]);
      CloserIsSmallerDistance(r[i].id, r[j].id, target);
    }
    forall m, n | m in r && n in nodes && n !in r ensures CloserTo(m.id, n.id, target) {
      assert key(m) < key(n);
      CloserIsSmallerDistance(m.id, n.id, target);
    }
  }

  /** Nodes coming and going **/

  function Remaining(nodes: Nodes, gone: set<Id>): Nodes {
    Keep(nodes, (n: NodeInfo) => n.id !in gone)
  }

  /**
   * Stability when nodes leave: those of the k closest that are left keep their places, in front, and only nodes that
   * were farther than all of them are added behind.
   */
  lemma PlacementAfterDepartures(nodes: Nodes, gone: set<Id>, target: Id, k: nat)
    requires WellFormed(nodes)
    ensures Remaining(Closest(nodes, target, k), gone) <= Closest(Remaining(nodes, gone), target, k)
  {
    DistancesDiffer(nodes, target);
    FirstOfKept(nodes, (n: NodeInfo) => n.id !in gone, DistanceTo(target), k);
  }

  /** Stability when a node joins: it is inserted, or not, and at most the last of the k closest is dropped. **/
  lemma PlacementAfterArrival(nodes: Nodes, node: NodeInfo, target: Id, k: nat)
    requires WellFormed(nodes) && forall n | n in nodes :: n.id != node.id
    ensures var before, after := Closest(nodes, target, k), Closest(Upsert(nodes, node), target, k);
      if node in after
      then k > 0 && Remaining(after, {node.id}) == Closest(nodes, target, k - 1)
      else after == before
  {
    var key := DistanceTo(target);
    DistancesDiffer(nodes, target);
    OwnDistance(nodes, node, target);
    RankedWithNew(nodes, node, target);
    FirstWithNew(nodes, node, key, k);
    RankedIs(nodes, key);
    InsertIs(node, Ranked(nodes, key), key);
    KeepOther(Closest(Upsert(nodes, node), target, k), nodes, node, target);
  }

  lemma KeepOther(some: Nodes, nodes: Nodes, node: NodeInfo, target: Id)
    requires forall n | n in nodes :: n.id != node.id
    requires forall n | n in some :: n == node || n in nodes
    ensures Keep(some, OtherKey(node, DistanceTo(target))) == Remaining(some, {node.id})
  {
    OwnDistance(nodes, node, target);
    KeepSame(some, OtherKey(node, DistanceTo(target)), (n: NodeInfo) => n.id !in {node.id});
  }

  lemma OwnDistance(nodes: Nodes, node: NodeInfo, target: Id)
    requires forall n | n in nodes :: n.id != node.id
    ensures forall n | n in nodes :: DistanceTo(target)(n) != DistanceTo(target)(node)
  {
    forall n | n in nodes ensures DistanceTo(target)(n) != DistanceTo(target)(node) {
      if Distance(n.id, target) == Distance(node.id, target) {
        DistanceInjective(n.id, node.id, target);
      }
    }
  }

  lemma RankedWithNew(nodes: Nodes, node: NodeInfo, target: Id)
    requires WellFormed(nodes) && forall n | n in nodes :: n.id != node.id
    ensures Ranked(Upsert(nodes, node), DistanceTo(target))
         == Insert(node, Ranked(nodes, DistanceTo(target)), DistanceTo(target))
  {
    var key := DistanceTo(target);
    UpsertIs(nodes, node);
    DistancesDiffer(nodes, target);
    DistancesDiffer(Upsert(nodes, node), target);
    OwnDistance(nodes, node, target);
    RankedIs(nodes, key);
    RankedIs(Upsert(nodes, node), key);
    InsertIs(node, Ranked(nodes, key), key);
    AscendingIsUnique(Ranked(Upsert(nodes, node), key), Insert(node, Ranked(nodes, key), key), key);
  }

  lemma {:induction false} KeepSame(nodes: Nodes, p: NodeInfo -> bool, q: NodeInfo -> bool)
    requires forall n | n in nodes :: p(n) <==> q(n)
    ensures Keep(nodes, p) == Keep(nodes, q)
  {
    if nodes != [] {
      KeepSame(nodes[1..], p, q);
    }
  }

  /** The table of a peer list **/

  function NodeName(p: Endpoint): string {
    p.ip + ":" + IntText(p.port)
  }

  // makeNodeId
  function NodeId(digest: string -> Bytes, p: Endpoint): Id {
    KeyId(digest, NodeName(p))
  }

  function SelfId(digest: string -> Bytes): Id {
    KeyId(digest, "client")
  }

  function Table(digest: string -> Bytes, peers: seq<Endpoint>): Nodes {
    if peers == [] then []
    else
      var before, last := peers[..|peers| - 1], peers[|peers| - 1];
      AddNode(Table(digest, before), SelfId(digest), NodeInfo(NodeId(digest, last), last))
  }

  // Peers sharing an id are the same peer.
  ghost predicate NoIdClash(digest: string -> Bytes, peers: seq<Endpoint>) {
    forall p, q | p in peers && q in peers && NodeId(digest, p) == NodeId(digest, q) :: p == q
  }

  // An entry of the table is a configured peer under its own id, and is not this client.
  predicate IsEntry(digest: string -> Bytes, peers: seq<Endpoint>, n: NodeInfo) {
    n.endpoint in peers && n.id == NodeId(digest, n.endpoint) && n.id != SelfId(digest)
  }

  lemma {:induction false} TableIsWellFormed(digest: string -> Bytes, peers: seq<Endpoint>)
    ensures WellFormed(Table(digest, peers)) && |Table(digest, peers)| <= |peers|
    ensures forall n | n in Table(digest, peers) :: IsEntry(digest, peers, n)
  {
    if peers != [] {
      var before, last := peers[..|peers| - 1], peers[|peers| - 1];
      var t, n := Table(digest, before), NodeInfo(NodeId(digest, last), last);
      TableIsWellFormed(digest, before);
      UpsertIs(t, n);
      UpsertLength(t, n);
      assert forall p | p in before :: p in peers;
      assert forall m | m in t :: IsEntry(digest, before, m);
      if n.id != SelfId(digest) {
        assert IsEntry(digest, peers, n);
      }
    }
  }

  lemma {:induction false} UpsertLength(nodes: Nodes, node: NodeInfo)
    ensures |nodes| <= |Upsert(nodes, node)| <= |nodes| + 1
  {
    if nodes != [] {
      UpsertLength(nodes[1..], node);
    }
  }

  lemma {:induction false} TableHolds(digest: string -> Bytes, peers: seq<Endpoint>)
    requires NoIdClash(digest, peers)
    ensures forall p | p in peers && NodeId(digest, p) != SelfId(digest) ::
              NodeInfo(NodeId(digest, p), p) in Table(digest, peers)
  {
    if peers != [] {
      var before, last := peers[..|peers| - 1], peers[|peers| - 1];
      assert peers == before + [last];
      TableHolds(digest, before);
      TableIsWellFormed(digest, before);
      UpsertIs(Table(digest, before), NodeInfo(NodeId(digest, last), last));
    }
  }

  // store: the peers that should hold the key, nearest first.
  function Placement(digest: string -> Bytes, peers: seq<Endpoint>, key: string, replicas: int): seq<Endpoint> {
    Endpoints(Closest(Table(digest, peers), KeyId(digest, key), if replicas <= 0 then 1 else replicas))
  }

  function Endpoints(nodes: Nodes): (r: seq<Endpoint>)
    ensures |r| == |nodes| && forall i | 0 <= i < |r| :: r[i] == nodes[i].endpoint
  {
    seq(|nodes|, i requires 0 <= i < |nodes| => nodes[i].endpoint)
  }

  /** Targets are configured peers, all different, and never more than asked for. **/
  lemma PlacementIs(digest: string -> Bytes, peers: seq<Endpoint>, key: string, replicas: int)
    ensures var r := Placement(digest, peers, key, replicas);
      && Distinct(r) && |r| <= (if replicas <= 0 then 1 else replicas) && |r| <= |peers|
      && (r == [] <==> Table(digest, peers) == [])
      && forall p | p in r :: p in peers
  {
    TableIsWellFormed(digest, peers);
    var nodes := Table(digest, peers);
    var target, k := KeyId(digest, key), if replicas <= 0 then 1 else replicas;
    ClosestAreNearest(nodes, target, k);
    var c, r := Closest(nodes, target, k), Placement(digest, peers, key, replicas);
    forall i | 0 <= i < |r| ensures IsEntry(digest, peers, c[i]) {
      assert c[i] in c;
    }
    forall i, j | 0 <= i < j < |r| ensures r[i] != r[j] {
      assert IsEntry(digest, peers, c[i]) && IsEntry(digest, peers, c[j]);
    }
  }

  /** Any list of the same peers, in any order and with any repetitions, gives the same placement. **/
  lemma PlacementIgnoresOrder(digest: string -> Bytes, peers: seq<Endpoint>, peers': seq<Endpoint>,
                              key: string, replicas: int)
    requires NoIdClash(digest, peers) && forall p :: p in peers <==> p in peers'
    ensures Placement(digest, peers, key, replicas) == Placement(digest, peers', key, replicas)
  {
    var t, t' := Table(digest, peers), Table(digest, peers');
    var target := KeyId(digest, key);
    TableHolds(digest, peers);
    TableHolds(digest, peers');
    TableIsWellFormed(digest, peers);
    TableIsWellFormed(digest, peers');
    DistancesDiffer(t, target);
    DistancesDiffer(t', target);
    RankedIs(t, DistanceTo(target));
    RankedIs(t', DistanceTo(target));
    forall n ensures n in t <==> n in t' {
      if n in t { assert IsEntry(digest, peers, n); }
      if n in t' { assert IsEntry(digest, peers', n); }
    }
    AscendingIsUnique(Ranked(t, DistanceTo(target)), Ranked(t', DistanceTo(target)), DistanceTo(target));
  }
}
