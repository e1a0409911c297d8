/** The classes RoutingTable and DhtNode over the lists of Routing.dfy. */
module Dht {
  import opened Kademlia
  import opened Ranking
  import opened Routing

  class RoutingTable {
    const selfId: Id
    var nodes: Nodes

    ghost predicate Valid()
      reads this
    {
      WellFormed(nodes) && forall n | n in nodes :: n.id != selfId
    }

    constructor (selfId: Id)
      ensures Valid() && this.selfId == selfId && nodes == []
    {
      this.selfId := selfId;
      nodes := [];
    }

    method AddNode(node: NodeInfo)
      requires Valid()
      modifies this
      ensures Valid() && nodes == Routing.AddNode(old(nodes), selfId, node)
    {
      if node.id == selfId {
        return;
      }
      UpsertIs(nodes, node);
      for i := 0 to |nodes|
        invariant nodes == old(nodes)
        invariant forall j | 0 <= j < i :: nodes[j].id != node.id
      {
        if nodes[i].id == node.id {
          UpsertAt(nodes, node, i);
          nodes := nodes[i := nodes[i].(endpoint := node.endpoint)];
          return;
        }
      }
      UpsertAt(nodes, node, |nodes|);
      nodes := nodes + [node];
    }

    // Stands for std::sort: its contract says no more than the standard does. key is any ranking the order follows.
    static method Sort(input: Nodes, target: Id, ghost key: NodeInfo -> nat) returns (tmp: Nodes)
      requires RanksBy(key, target)
      ensures SortOutcome(input, tmp, target)
    {
      tmp := [];
      for i := 0 to |input|
        invariant multiset(tmp) == multiset(input[..i]) && NonDescending(tmp, key)
      {
        tmp := InsertSorted(tmp, input[i], target, key);
        assert input[..i + 1] == input[..i] + [input[i]];
      }
      assert input[..|input|] == input;
      NonDescendingIsSorted(input, tmp, target, key);
    }

    static method InsertSorted(s: Nodes, x: NodeInfo, target: Id, ghost key: NodeInfo -> nat) returns (r: Nodes)
      requires RanksBy(key, target) && NonDescending(s, key)
      ensures multiset(r) == multiset(s) + multiset{x} && NonDescending(r, key)
    {
      var j: nat := |s|;
      while j > 0 && CloserTo(x.id, s[j - 1].id, target)
        invariant j <= |s|
        invariant forall h | j <= h < |s| :: key(x) < key(s[h])
      {
        j := j - 1;
      }
      InsertNonDescending(s, j, x, key);
      assert s == s[..j] + s[j..];
      r := s[..j] + ([x] + s[j..]);
    }

    method ClosestNodes(target: Id, k: nat) returns (tmp: Nodes)
      requires Valid()
      ensures tmp == Closest(nodes, target, k)
    {
      if nodes == [] || k == 0 {
        return [];
      }
      DistanceRanks(target);
      tmp := Sort(nodes, target, DistanceTo(target));
      SortHasOneOutcome(nodes, tmp, target);
      if |tmp| > k {
        tmp := tmp[..k];
      }
    }
  }

  // key orders nodes as CloserTo does.
  ghost predicate RanksBy(key: NodeInfo -> nat, target: Id) {
    forall m: NodeInfo, n: NodeInfo :: CloserTo(m.id, n.id, target) <==> key(m) < key(n)
  }

  lemma NonDescendingIsSorted(input: Nodes, tmp: Nodes, target: Id, key: NodeInfo -> nat)
    requires RanksBy(key, target) && NonDescending(tmp, key) && multiset(tmp) == multiset(input)
    ensures SortOutcome(input, tmp, target)
  {
    forall i, j | 0 <= i < j < |tmp| ensures !CloserTo(tmp[j].id, tmp[i].id, target) {
      assert key(tmp[i]) <= key(tmp[j]);
    }
  }

  lemma DistanceRanks(target: Id)
    ensures RanksBy(DistanceTo(target), target)
  {
    forall m: NodeInfo, n: NodeInfo
      ensures CloserTo(m.id, n.id, target) <==> DistanceTo(target)(m) < DistanceTo(target)(n)
    {
      CloserIsSmallerDistance(m.id, n.id, target);
    }
  }

  class DhtNode {
    const digest: string -> Bytes
    ghost const peers: seq<Endpoint>
    const table: RoutingTable

    ghost predicate Valid()
      reads table
    {
      table.selfId == SelfId(digest) && table.nodes == Table(digest, peers)
    }

    lemma TableIsValid()
      requires Valid()
      ensures table.Valid()
    {
      TableIsWellFormed(digest, peers);
      assert forall n | n in table.nodes :: IsEntry(digest, peers, n);
    }

    constructor (digest: string -> Bytes, peers: seq<Endpoint>)
      ensures Valid() && this.digest == digest && this.peers == peers && fresh(table)
    {
      var t := new RoutingTable(SelfId(digest));
      for i := 0 to |peers|
        invariant fresh(t) && t.Valid() && t.selfId == SelfId(digest)
        invariant t.nodes == Table(digest, peers[..i])
      {
        assert peers[..i + 1][..i] == peers[..i];
        t.AddNode(NodeInfo(NodeId(digest, peers[i]), peers[i]));
      }
      assert peers[..|peers|] == peers;
      this.digest := digest;
      this.peers := peers;
      table := t;
    }

    method FindNode(target: Id, k: nat) returns (r: Nodes)
      requires Valid()
      ensures r == Closest(Table(digest, peers), target, k)
    {
      TableIsValid();
      ClampedClosest(table.nodes, target, k);
      if table.nodes == [] || k == 0 {
        return [];
      }
      r := table.ClosestNodes(target, if k > |table.nodes| then |table.nodes| else k);
    }

    method Store(key: string, replicas: int) returns (out: seq<Endpoint>)
      requires Valid()
      ensures out == Placement(digest, peers, key, replicas)
    {
      var wanted := if replicas <= 0 then 1 else replicas;
      var target := KeyId(digest, key);
      TableIsValid();
      ClampedClosest(table.nodes, target, wanted);
      if table.nodes == [] {
        return [];
      }
      var nodes := table.ClosestNodes(target, if wanted > |table.nodes| then |table.nodes| else wanted);
      out := CopyEndpoints(nodes);
    }

    // The push_back loop at the end of store.
    static method CopyEndpoints(nodes: Nodes) returns (out: seq<Endpoint>)
      ensures out == Endpoints(nodes)
    {
      out := [];
      for i := 0 to |nodes|
        invariant |out| == i && forall j | 0 <= j < i :: out[j] == nodes[j].endpoint
      {
        out := out + [nodes[i].endpoint];
      }
    }

    method FindValue(key: string, replicas: int) returns (out: seq<Endpoint>)
      requires Valid()
      ensures out == Placement(digest, peers, key, replicas)
    {
      out := Store(key, replicas);
    }
  }

  // Asking for more nodes than there are is asking for all of them.
  lemma ClampedClosest(nodes: Nodes, target: Id, k: nat)
    requires WellFormed(nodes)
    ensures Closest(nodes, target, k) == Closest(nodes, target, if k > |nodes| then |nodes| else k)
    ensures nodes == [] || k == 0 ==> Closest(nodes, target, k) == []
  {
    DistancesDiffer(nodes, target);
    RankedIs(nodes, DistanceTo(target));
  }
}
