/** Enough room for everything is enough for nothing to be evicted. **/
module Room {
  import opened Basics
  import opened Store
  import opened Recency
  import opened StoreRuns
  import opened Routing
  import opened Upload

  ghost predicate Roomy(s: State, room: nat) {
    Consistent(s) && (s.maxBytes == 0 || s.used + room <= s.maxBytes)
  }

  function RoomAt(q: Endpoint, targets: seq<Endpoint>, size: nat, room: nat): nat {
    if q in targets then size + room else room
  }

  // What q will be sent if every parcel goes to every one of its targets.
  function Owed(parcels: seq<Parcel>, q: Endpoint): nat {
    if parcels == [] then 0
    else RoomAt(q, parcels[0].targets, |parcels[0].payload|, Owed(parcels[1..], q))
  }

  // Every peer has room for what it will be sent.
  ghost predicate NetRoomy(net: Net, parcels: seq<Parcel>) {
    forall q | q in net :: Roomy(net[q].store, Owed(parcels, q))
  }

  // Targets have room for the data and the other parcels after it; the rest for those.
  ghost predicate RoomFor(net: Net, targets: seq<Endpoint>, size: nat, others: seq<Parcel>) {
    forall q | q in net :: Roomy(net[q].store, RoomAt(q, targets, size, Owed(others, q)))
  }

  lemma RoomForFirst(net: Net, parcels: seq<Parcel>)
    requires NetRoomy(net, parcels) && parcels != []
    ensures RoomFor(net, parcels[0].targets, |parcels[0].payload|, parcels[1..])
  {
    forall q | q in net
      ensures Roomy(net[q].store, RoomAt(q, parcels[0].targets, |parcels[0].payload|, Owed(parcels[1..], q)))
    {
      assert Roomy(net[q].store, Owed(parcels, q));
    }
  }

  lemma RoomForFewer(net: Net, targets: seq<Endpoint>, some: seq<Endpoint>, size: nat, others: seq<Parcel>)
    requires RoomFor(net, targets, size, others) && forall q | q in some :: q in targets
    ensures RoomFor(net, some, size, others)
  {
    forall q | q in net ensures Roomy(net[q].store, RoomAt(q, some, size, Owed(others, q))) {
      assert Roomy(net[q].store, RoomAt(q, targets, size, Owed(others, q)));
    }
  }

  lemma RoomyFits(s: State, id: string, size: nat, room: nat)
    requires Roomy(s, size + room)
    ensures Fits(s, id, size)
  {
    var c :| Represents(s, c);
    Removes(s, c, id);
    DropWellFormed(c, id);
  }

  lemma SendChunkLeavesRoom(net: Net, p: Endpoint, id: string, data: string, room: nat)
    requires p in net && Roomy(net[p].store, |data| + room) && IsChunkId(id)
    ensures Roomy(SendChunk(net, p, id, data)[p].store, room)
  {
    RoomyFits(net[p].store, id, |data|, room);
    StoreWithRoom(net[p].store, id, data);
  }

  lemma {:induction false} SendChunkToLeavesRoom(net: Net, targets: seq<Endpoint>, id: string, data: string,
                                                 others: seq<Parcel>)
    requires Reachable(net, targets) && Distinct(targets) && RoomFor(net, targets, |data|, others) && IsChunkId(id)
    ensures NetRoomy(SendChunkTo(net, targets, id, data).0, others)
  {
    if targets != [] {
      var t, rest := targets[0], targets[1..];
      assert targets == [t] + rest;
      assert t !in rest;
      assert Roomy(net[t].store, RoomAt(t, targets, |data|, Owed(others, t)));
      SendChunkLeavesRoom(net, t, id, data, Owed(others, t));
      var net1 := SendChunk(net, t, id, data);
      forall p | p in net1 ensures Roomy(net1[p].store, RoomAt(p, rest, |data|, Owed(others, p))) {
        if p != t {
          assert Roomy(net[p].store, RoomAt(p, targets, |data|, Owed(others, p)));
        }
      }
      SendChunkToLeavesRoom(net1, rest, id, data, others);
    } else {
      forall p | p in net ensures Roomy(net[p].store, Owed(others, p)) {
        assert Roomy(net[p].store, RoomAt(p, targets, |data|, Owed(others, p)));
      }
    }
  }

  lemma RoomForFits(net: Net, targets: seq<Endpoint>, id: string, size: nat, others: seq<Parcel>)
    requires RoomFor(net, targets, size, others)
    ensures FitsAt(net, targets, id, size)
  {
    forall q | q in targets && q in net ensures Fits(net[q].store, id, size) {
      assert Roomy(net[q].store, RoomAt(q, targets, size, Owed(others, q)));
      RoomyFits(net[q].store, id, size, Owed(others, q));
    }
  }

  lemma RoomyIsConsistent(net: Net, parcels: seq<Parcel>)
    requires NetRoomy(net, parcels)
    ensures AllConsistent(net)
  {
    forall q | q in net ensures Consistent(net[q].store) {
      assert Roomy(net[q].store, Owed(parcels, q));
    }
  }

  /** If every peer has room for all it could be sent, no delivery evicts anything. **/
  lemma {:induction false} RoomSuffices(net: Net, parcels: seq<Parcel>, dedup: bool)
    requires AllSendable(parcels) && NetRoomy(net, parcels)
    ensures AllConsistent(net) && NothingEvicted(net, parcels, dedup)
    decreases parcels
  {
    RoomyIsConsistent(net, parcels);
    if parcels != [] && Reachable(net, parcels[0].targets) {
      var p, rest := parcels[0], parcels[1..];
      assert Sendable(p);
      var recipients := Recipients(net, p, dedup);
      MissingDistinct(net, p.targets, p.id);
      RoomForFirst(net, parcels);
      RoomForFewer(net, p.targets, recipients, |p.payload|, rest);
      RoomForFits(net, recipients, p.id, |p.payload|, rest);
      SendChunkToLeavesRoom(net, recipients, p.id, p.payload, rest);
      RoomSuffices(Deliver(net, p, dedup).0, rest, dedup);
    }
  }
}
