/**
 * The store as a list of chunks, least recently used first: storing or loading moves a chunk to the end, and the
 * limit drops chunks from the front. Every run of the indexed, clocked, file-backed manager is a run of this list.
 */
module Recency {
  import opened Basics
  import opened Text
  import opened Store

  /** Ids from least to most recently used, and the bytes of each. */
  datatype Cache = Cache(order: seq<string>, data: map<string, string>)

  predicate EndsWithTmp(id: string) {
    |id| >= 4 && id[|id| - 4..] == ".tmp"
  }

  // Names that storeChunk's temporary files cannot collide with, and that metadata.db can hold.
  predicate IsChunkId(id: string) {
    IsToken(id) && !EndsWithTmp(id)
  }

  // What sha256_hex produces is such a name.
  lemma HexIdsAreChunkIds(id: string)
    requires |id| == 64 && forall i | 0 <= i < |id| :: IsHexDigit(id[i])
    ensures IsChunkId(id)
  {
    assert id[|id| - 4..][1] == id[61];
  }

  lemma TempNamesAreNotChunkIds(id: string)
    ensures !IsChunkId(TempName(id))
  {
    assert TempName(id)[|TempName(id)| - 4..] == ".tmp";
  }

  // Sum of the sizes of the listed chunks.
  function Total(order: seq<string>, data: map<string, string>): nat
    requires forall h | h in order :: h in data
  {
    if order == [] then 0 else |data[order[0]]| + Total(order[1..], data)
  }

  ghost predicate WellFormed(c: Cache) {
    && Distinct(c.order)
    && forall h :: h in c.order <==> h in c.data
  }

  function DropId(c: Cache, id: string): Cache {
    Cache(Without(c.order, id), c.data - {id})
  }

  function AddId(c: Cache, id: string, bytes: string): Cache {
    Cache(c.order + [id], c.data[id := bytes])
  }

  // Forget the least recently used chunk.
  function Tail(c: Cache): Cache
    requires c.order != []
  {
    Cache(c.order[1..], c.data - {c.order[0]})
  }

  lemma TailWellFormed(c: Cache)
    requires WellFormed(c) && c.order != []
    ensures WellFormed(Tail(c))
    ensures Total(Tail(c).order, Tail(c).data) == Total(c.order, c.data) - |c.data[c.order[0]]|
  {
    assert c.order == [c.order[0]] + c.order[1..];
    TotalFrame(c.order[1..], c.data, Tail(c).data);
  }

  // Drop from the front until the rest fits.
  ghost function Fit(c: Cache, maxBytes: nat): Cache
    requires WellFormed(c)
    decreases |c.order|
  {
    if Total(c.order, c.data) <= maxBytes then c
    else
      TailWellFormed(c);
      Fit(Tail(c), maxBytes)
  }

  ghost function Limited(c: Cache, maxBytes: nat): Cache
    requires WellFormed(c)
  {
    if maxBytes == 0 then c else Fit(c, maxBytes)
  }

  // Put or move a chunk to the recent end.
  function Refresh(c: Cache, id: string, bytes: string): Cache {
    AddId(DropId(c, id), id, bytes)
  }

  // The list after an operation, under the limit in force before it.
  ghost function ListStep(c: Cache, maxBytes: nat, op: Op): Cache
    requires WellFormed(c)
  {
    match op
    case Put(id, bytes, write) =>
      DropWellFormed(c, id);
      AddWellFormed(DropId(c, id), id, bytes);
      if id == "" || !write.Complete? then c else Limited(Refresh(c, id, bytes), maxBytes)
    case Get(id) => if id in c.data then Refresh(c, id, c.data[id]) else c
    case Del(id) => DropId(c, id)
    case Limit(bytes) => Limited(c, bytes)
  }

  function ListReply(c: Cache, op: Op): Reply {
    match op
    case Put(id, bytes, write) => if id == "" || !write.Complete? then Threw else Done
    case Get(id) => if id in c.data then Data(c.data[id]) else Threw
    case Del(id) => Done
    case Limit(bytes) => Done
  }

  /** Facts about lists **/

  lemma {:induction false} TotalFrame(order: seq<string>, data: map<string, string>, data': map<string, string>)
    requires forall h | h in order :: h in data && h in data' && data[h] == data'[h]
    ensures Total(order, data) == Total(order, data')
  {
    if order != [] {
      TotalFrame(order[1..], data, data');
    }
  }

  lemma {:induction false} TotalAppend(a: seq<string>, b: seq<string>, data: map<string, string>)
    requires forall h | h in a + b :: h in data
    ensures forall h | h in a || h in b :: h in a + b
    ensures Total(a + b, data) == Total(a, data) + Total(b, data)
  {
    assert forall h | h in a || h in b :: h in a + b;
    if a == [] {
      assert a + b == b;
    } else {
      assert (a + b)[1..] == a[1..] + b;
      TotalAppend(a[1..], b, data);
    }
  }

  lemma {:induction false} TotalWithout(order: seq<string>, id: string, data: map<string, string>)
    requires Distinct(order) && forall h | h in order :: h in data
    ensures Total(Without(order, id), data) == Total(order, data) - (if id in order then |data[id]| else 0)
  {
    if order != [] {
      assert order == [order[0]] + order[1..];
      TotalWithout(order[1..], id, data);
      if order[0] == id {
        assert id !in order[1..];
      } else {
        var r := Without(order[1..], id);
        assert ([order[0]] + r)[1..] == r;
      }
    }
  }

  lemma DropWellFormed(c: Cache, id: string)
    requires WellFormed(c)
    ensures WellFormed(DropId(c, id))
    ensures Total(DropId(c, id).order, DropId(c, id).data)
         == Total(c.order, c.data) - (if id in c.data then |c.data[id]| else 0)
  {
    WithoutDistinct(c.order, id);
    TotalWithout(c.order, id, c.data);
    TotalFrame(Without(c.order, id), c.data, c.data - {id});
  }

  lemma AddWellFormed(c: Cache, id: string, bytes: string)
    requires WellFormed(c) && id !in c.data
    ensures WellFormed(AddId(c, id, bytes))
    ensures Total(AddId(c, id, bytes).order, AddId(c, id, bytes).data) == Total(c.order, c.data) + |bytes|
  {
    var d := AddId(c, id, bytes);
    assert forall h | h in d.order :: h in c.order || h == id;
    TotalAppend(c.order, [id], d.data);
    TotalFrame(c.order, c.data, d.data);
    assert Total([id], d.data) == |bytes| + Total([], d.data) by {
      assert [id][1..] == [];
    }
  }

  lemma {:induction false} FitWellFormed(c: Cache, maxBytes: nat)
    requires WellFormed(c)
    ensures WellFormed(Fit(c, maxBytes))
    ensures Total(Fit(c, maxBytes).order, Fit(c, maxBytes).data) <= maxBytes
    decreases |c.order|
  {
    if Total(c.order, c.data) > maxBytes {
      TailWellFormed(c);
      FitWellFormed(Tail(c), maxBytes);
    }
  }

  lemma ListStepWellFormed(c: Cache, maxBytes: nat, op: Op)
    requires WellFormed(c)
    ensures WellFormed(ListStep(c, maxBytes, op))
  {
    match op
    case Put(id, bytes, write) =>
      DropWellFormed(c, id);
      AddWellFormed(DropId(c, id), id, bytes);
      FitWellFormed(Refresh(c, id, bytes), maxBytes);
    case Get(id) =>
      if id in c.data {
        DropWellFormed(c, id);
        AddWellFormed(DropId(c, id), id, c.data[id]);
      }
    case Del(id) =>
      DropWellFormed(c, id);
    case Limit(bytes) =>
      FitWellFormed(c, bytes);
  }

  /** The abstraction relation **/

  // Clock values increase along the list.
  ghost predicate Clocked(meta: map<string, ChunkMeta>, order: seq<string>) {
    order == [] ||
    (&& order[0] in meta
     && Clocked(meta, order[1..])
     && forall h | h in order[1..] :: h in meta && meta[order[0]].lastAccess < meta[h].lastAccess)
  }

  // Index and directory hold the same chunks, with the right sizes.
  ghost predicate Booked(s: State) {
    && s.meta.Keys == s.files.Keys
    && forall h | h in s.meta :: s.meta[h].size == |s.files[h]| && s.meta[h].lastAccess <= s.counter
  }

  // And under usable names.
  ghost predicate Agree(s: State) {
    Booked(s) && forall h | h in s.meta :: IsChunkId(h)
  }

  ghost predicate Mirrors(s: State, c: Cache) {
    && WellFormed(c)
    && c.data == s.files
    && Booked(s)
    && Clocked(s.meta, c.order)
    && s.used == Total(c.order, c.data)
  }

  ghost predicate Represents(s: State, c: Cache) {
    Mirrors(s, c) && Agree(s)
  }

  ghost predicate Consistent(s: State) {
    exists c :: Represents(s, c)
  }

  /** Refinement, one operation at a time **/

  lemma {:induction false} ClockedApart(meta: map<string, ChunkMeta>, order: seq<string>, g: string, h: string)
    requires Clocked(meta, order) && g in order && h in order && g != h
    ensures g in meta && h in meta && meta[g].lastAccess != meta[h].lastAccess
  {
    if g != order[0] && h != order[0] {
      ClockedApart(meta, order[1..], g, h);
    }
  }

  lemma {:induction false} ClockedFrame(m: map<string, ChunkMeta>, m': map<string, ChunkMeta>, order: seq<string>)
    requires Clocked(m, order) && forall h | h in order && h in m :: h in m' && m[h] == m'[h]
    ensures Clocked(m', order)
  {
    if order != [] {
      ClockedFrame(m, m', order[1..]);
    }
  }

  lemma {:induction false} ClockedSnoc(meta: map<string, ChunkMeta>, order: seq<string>, id: string)
    requires Clocked(meta, order) && id in meta
    requires forall h | h in order && h in meta :: meta[h].lastAccess < meta[id].lastAccess
    ensures Clocked(meta, order + [id])
  {
    if order == [] {
      assert [id][1..] == [];
    } else {
      ClockedSnoc(meta, order[1..], id);
      assert (order + [id])[1..] == order[1..] + [id];
    }
  }

  lemma RepresentsIsWellKept(s: State, c: Cache)
    requires Mirrors(s, c)
    ensures Aged(s) && (Represents(s, c) ==> WellKept(s))
  {
    forall g, h | g in s.meta && h in s.meta && g != h ensures s.meta[g].lastAccess != s.meta[h].lastAccess {
      ClockedApart(s.meta, c.order, g, h);
    }
  }

  // An eviction takes the front chunk: its file, its size, and a subtraction that does not wrap.
  lemma EvictFront(s: State, c: Cache)
    requires Mirrors(s, c) && s.meta != map[]
    ensures c.order != [] && Oldest(s.meta) == c.order[0]
    ensures s.used >= s.meta[c.order[0]].size
    ensures Mirrors(Evicted(s, c.order[0]), Tail(c))
  {
    var o := Oldest(s.meta);
    assert o in c.order;
    assert c.order[0] in s.meta;
    assert c.order == [c.order[0]] + c.order[1..];
    TailWellFormed(c);
    assert forall h | h in c.order[1..] :: h in c.order && h != c.order[0];
    ClockedFrame(s.meta, s.meta - {o}, c.order[1..]);
  }

  lemma {:induction false} EvictLoopFits(s: State, c: Cache)
    requires Mirrors(s, c)
    ensures Mirrors(EvictLoop(s), Fit(c, s.maxBytes))
    decreases |c.order|
  {
    if s.used > s.maxBytes {
      assert c.order[0] in s.meta;
      EvictFront(s, c);
      EvictLoopFits(Evicted(s, c.order[0]), Tail(c));
    }
  }

  lemma EnforceLimits(s: State, c: Cache)
    requires Represents(s, c)
    ensures Represents(EnforceLimit(s), Limited(c, s.maxBytes))
  {
    if s.maxBytes != 0 {
      EvictLoopFits(s, c);
      EvictLoopKeeps(s);
    }
  }

  lemma {:induction false} WithoutClocked(meta: map<string, ChunkMeta>, order: seq<string>, id: string)
    requires Clocked(meta, order)
    ensures Clocked(meta - {id}, Without(order, id))
  {
    if order != [] {
      WithoutClocked(meta, order[1..], id);
      if order[0] != id {
        var r := Without(order[1..], id);
        assert ([order[0]] + r)[1..] == r;
      }
    }
  }

  // Taking a chunk off the books.
  lemma Removes(s: State, c: Cache, id: string)
    requires Mirrors(s, c)
    ensures UsedWithout(s, id) == Total(DropId(c, id).order, DropId(c, id).data)
    ensures Mirrors(Removed(s, id), DropId(c, id))
  {
    DropWellFormed(c, id);
    WithoutClocked(s.meta, c.order, id);
  }

  // Putting a chunk that is not held at the recent end.
  lemma Appends(s: State, c: Cache, id: string, bytes: string)
    requires Mirrors(s, c) && id !in s.files
    ensures Mirrors(Added(s, id, bytes), AddId(c, id, bytes))
  {
    AddWellFormed(c, id, bytes);
    var t := Added(s, id, bytes);
    assert Clocked(t.meta, c.order + [id]) by {
      ClockedFrame(s.meta, t.meta, c.order);
      ClockedSnoc(t.meta, c.order, id);
    }
    AddedIsBooked(s, id, bytes);
  }

  lemma AddedIsBooked(s: State, id: string, bytes: string)
    requires Booked(s)
    ensures Booked(Added(s, id, bytes))
  {
  }

  lemma WrittenRefreshes(s: State, c: Cache, id: string, bytes: string)
    requires Represents(s, c) && IsChunkId(id)
    ensures Represents(Written(s, id, bytes), Refresh(c, id, bytes))
  {
    TempNamesAreNotChunkIds(id);
    WrittenInTwoSteps(s, id, bytes);
    Removes(s, c, id);
    Appends(Removed(s, id), DropId(c, id), id, bytes);
  }

  lemma LoadRefreshes(s: State, c: Cache, id: string)
    requires Represents(s, c) && id in s.files
    ensures Represents(LoadChunk(s, id), Refresh(c, id, s.files[id]))
  {
    var bytes := s.files[id];
    WrittenRefreshes(s, c, id, bytes);
    var w, t := Written(s, id, bytes), LoadChunk(s, id);
    TempNamesAreNotChunkIds(id);
    assert t.files == w.files;
    assert t.meta == w.meta;
    DropWellFormed(c, id);
    Removes(s, c, id);
  }

  // Operations that the file system lets through, on names as above.
  predicate Returns(op: Op) {
    op.Put? ==> op.write.Complete? && IsChunkId(op.id)
  }

  lemma StepRefines(s: State, c: Cache, op: Op)
    requires Represents(s, c) && Returns(op)
    ensures Represents(Step(s, op), ListStep(c, s.maxBytes, op))
    ensures ReplyTo(s, op) == ListReply(c, op)
  {
    match op
    case Put(id, bytes, _) =>
      WrittenRefreshes(s, c, id, bytes);
      EnforceLimits(Written(s, id, bytes), Refresh(c, id, bytes));
    case Get(id) =>
      if id in s.files {
        LoadRefreshes(s, c, id);
      }
    case Del(id) =>
      Removes(s, c, id);
    case Limit(bytes) =>
      EnforceLimits(s.(maxBytes := bytes), c);
  }
}
