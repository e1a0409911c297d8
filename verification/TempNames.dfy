/**
 * A chunk whose name is that of another chunk's temporary file: exactly when storing the other chunk, or failing to,
 * leaves index and directory disagreeing.
 */
module TempNames {
  import opened Basics
  import opened Store
  import opened Recency
  import opened StoreRuns

  /** A recency list for any index whose ages are distinct **/

  lemma {:induction false} OrderExists(meta: map<string, ChunkMeta>) returns (order: seq<string>)
    requires forall g, h | g in meta && h in meta && g != h :: meta[g].lastAccess != meta[h].lastAccess
    ensures Distinct(order) && (forall h :: h in order <==> h in meta) && Clocked(meta, order)
    decreases |meta|
  {
    if meta == map[] {
      order := [];
    } else {
      var o := Oldest(meta);
      var rest := meta - {o};
      assert rest.Keys < meta.Keys;
      var tail := OrderExists(rest);
      order := [o] + tail;
      assert order[1..] == tail;
      DistinctCons(o, tail);
      ClockedFrame(rest, meta, tail);
    }
  }

  /** Consistency is something to be read off the fields. **/
  lemma ConsistentIff(s: State)
    ensures Consistent(s) <==> Agree(s) && Aged(s) && Accounted(s)
  {
    if Consistent(s) {
      var c :| Represents(s, c);
      RepresentsIsWellKept(s, c);
      ConsistentIsAccounted(s);
    }
    if Agree(s) && Aged(s) && Accounted(s) {
      var order := OrderExists(s.meta);
      SumOfListed(s.meta, order, s.files);
      assert Represents(s, Cache(order, s.files));
    }
  }

  function Blank(size: nat): string {
    seq(size, _ => ' ')
  }

  // Files of the recorded sizes.
  function Filled(meta: map<string, ChunkMeta>): map<string, string> {
    map h | h in meta :: Blank(meta[h].size)
  }

  lemma BooksAreMirrored(s: State) returns (c: Cache)
    requires Aged(s) && Accounted(s)
    ensures Mirrors(s.(files := Filled(s.meta)), c)
  {
    var order := OrderExists(s.meta);
    c := Cache(order, Filled(s.meta));
    SumOfListed(s.meta, order, c.data);
  }

  /** The eviction loop goes by the index alone **/

  lemma {:induction false} EvictLoopGoesByIndex(s: State, t: State)
    requires s.meta == t.meta && s.used == t.used && s.maxBytes == t.maxBytes
    ensures EvictLoop(s).meta == EvictLoop(t).meta
    decreases |s.meta|
  {
    if s.used > s.maxBytes && s.meta != map[] {
      var o := Oldest(s.meta);
      assert (s.meta - {o}).Keys < s.meta.Keys;
      EvictLoopGoesByIndex(Evicted(s, o), Evicted(t, o));
    }
  }

  lemma {:induction false} EvictLoopFiles(s: State)
    ensures forall h :: h in EvictLoop(s).files <==> h in s.files && (h in s.meta ==> h in EvictLoop(s).meta)
    ensures EvictLoop(s).meta.Keys <= s.meta.Keys
    decreases |s.meta|
  {
    if s.used > s.maxBytes && s.meta != map[] {
      var t := Evicted(s, Oldest(s.meta));
      assert t.meta.Keys < s.meta.Keys;
      EvictLoopFiles(t);
    }
  }

  /** Everything used since a chunk **/

  lemma {:induction false} SinceIsNoOlder(meta: map<string, ChunkMeta>, order: seq<string>, g: string)
    requires Clocked(meta, order) && g in order && (forall h | h in order :: h in meta) && Distinct(order)
    ensures forall h | h in order :: h in Since(order, g) <==> meta[h].lastAccess >= meta[g].lastAccess
  {
    assert order == [order[0]] + order[1..];
    if order[0] != g {
      SinceIsNoOlder(meta, order[1..], g);
    }
  }

  // The chunks other than id that were used no earlier than g, g included.
  function NoOlder(meta: map<string, ChunkMeta>, g: string, id: string): map<string, ChunkMeta>
    requires g in meta
  {
    map h | h in meta && h != id && meta[h].lastAccess >= meta[g].lastAccess :: meta[h]
  }

  // The chunks of the list from g on, once id is dropped.
  lemma SinceMembers(s: State, c: Cache, id: string, g: string)
    requires Mirrors(s, c) && g in s.meta && g != id
    ensures WellFormed(DropId(c, id)) && g in DropId(c, id).order
    ensures Distinct(Since(DropId(c, id).order, g))
    ensures forall h :: h in Since(DropId(c, id).order, g) <==> h in NoOlder(s.meta, g, id)
  {
    var d := DropId(c, id);
    Removes(s, c, id);
    SinceIsNoOlder(s.meta - {id}, d.order, g);
    SinceDistinct(d.order, g);
  }

  lemma SinceDropped(s: State, c: Cache, id: string, g: string)
    requires Mirrors(s, c) && g in s.meta && g != id
    ensures WellFormed(DropId(c, id)) && g in DropId(c, id).order
    ensures TotalSince(DropId(c, id), g) == SumOfSizes(NoOlder(s.meta, g, id))
  {
    SinceMembers(s, c, id, g);
    var d, meta := DropId(c, id), NoOlder(s.meta, g, id);
    forall h | h in meta ensures h in d.data && meta[h].size == |d.data[h]| {
      assert h in s.meta && h in s.files;
    }
    SumOfListed(meta, Since(d.order, g), d.data);
  }

  lemma TotalSinceIs(s: State, c: Cache, id: string, data: string, g: string)
    requires Mirrors(s, c) && g in s.meta && g != id
    ensures WellFormed(Refresh(c, id, data)) && g in Refresh(c, id, data).order
    ensures TotalSince(Refresh(c, id, data), g) == |data| + SumOfSizes(NoOlder(s.meta, g, id))
  {
    SinceDropped(s, c, id, g);
    SinceAdded(DropId(c, id), id, data, g);
  }

  /** The exact condition **/

  lemma WrittenIsMirrored(s: State, c: Cache, id: string, data: string)
    requires Mirrors(s.(files := Filled(s.meta)), c)
    ensures Mirrors(Written(s, id, data).(files := Filled(s.meta)[id := data]), Refresh(c, id, data))
  {
    var filled := s.(files := Filled(s.meta));
    Removes(filled, c, id);
    Appends(Removed(filled, id), DropId(c, id), id, data);
    SameBooks(s, id, data);
  }

  lemma SameBooks(s: State, id: string, data: string)
    ensures Written(s, id, data).(files := Filled(s.meta)[id := data])
         == Added(Removed(s.(files := Filled(s.meta)), id), id, data)
  {
    var m := ChunkMeta(|data|, s.counter + 1);
    assert (s.meta - {id})[id := m] == s.meta[id := m];
    assert (Filled(s.meta) - {id})[id := data] == Filled(s.meta)[id := data];
  }

  // After a complete write the chunk named like the temporary file is still indexed exactly if it is not evicted.
  lemma CollidingStaysIff(s: State, id: string, data: string, g: string)
    requires Aged(s) && Accounted(s) && g in s.meta && g != id
    ensures g in StoreChunk(s, id, data).meta
       <==> s.maxBytes == 0 || |data| + SumOfSizes(NoOlder(s.meta, g, id)) <= s.maxBytes
  {
    if s.maxBytes != 0 {
      var c := BooksAreMirrored(s);
      var t := Written(s, id, data);
      var u := t.(files := Filled(s.meta)[id := data]);
      WrittenIsMirrored(s, c, id, data);
      EvictLoopFits(u, Refresh(c, id, data));
      EvictLoopGoesByIndex(t, u);
      TotalSinceIs(s.(files := Filled(s.meta)), c, id, data, g);
      FitKeeps(Refresh(c, id, data), s.maxBytes, g);
    }
  }

  /**
   * From a state in which index and directory agree, under any limit, they still agree after a store or a failing store
   * of id if and only if
   * - no chunk is indexed under the name of id's temporary file, or
   * - the temporary file was not even opened, or
   * - the write was completed and the new chunk, together with everything else used no earlier than the chunk of that
   *   name, exceeds the limit, so that it is evicted anyway.
   */
  lemma TempNameCollision(s: State, id: string, data: string, write: Write)
    requires id != "" && s.meta.Keys == s.files.Keys && Aged(s) && Accounted(s)
    ensures var t := Step(s, Put(id, data, write)); var g := TempName(id);
      t.meta.Keys == t.files.Keys
      <==> g !in s.meta
           || write.OpenFailed?
           || (write.Complete? && s.maxBytes != 0 && |data| + SumOfSizes(NoOlder(s.meta, g, id)) > s.maxBytes)
  {
    var g := TempName(id);
    assert |g| == |id| + 4;
    if write.Complete? {
      WrittenAgrees(s, id, data);
      if g in s.meta {
        CollidingStaysIff(s, id, data, g);
      }
    } else {
      assert g in s.meta ==> g in s.meta.Keys && g !in (s.files - {g}).Keys;
    }
  }

  // After a complete write all that can be wrong is that the colliding chunk is indexed without its file.
  lemma WrittenAgrees(s: State, id: string, data: string)
    requires s.meta.Keys == s.files.Keys && TempName(id) != id
    ensures var t := StoreChunk(s, id, data);
      t.meta.Keys == t.files.Keys <==> !(TempName(id) in s.meta && TempName(id) in t.meta)
  {
    var w, t, g := Written(s, id, data), StoreChunk(s, id, data), TempName(id);
    EvictLoopFiles(w);
    assert forall h :: h in w.files <==> h == id || (h in s.files && h != g);
    assert forall h :: h in w.meta <==> h == id || h in s.meta;
    assert forall h :: h in t.meta ==> h in w.meta;
    assert forall h :: h in t.files <==> h in w.files && (h in w.meta ==> h in t.meta);
    assert g !in t.files.Keys;
  }

  lemma SumOfOne(h: string, m: ChunkMeta)
    ensures SumOfSizes(map[h := m]) == m.size
  {
    var one := map[h := m];
    assert h in one;
    assert Pick(one) == h && one - {h} == map[];
  }

  // A new store under a limit of 3 bytes with one chunk named "a.tmp".
  lemma OneColliding(bytes: string) returns (s: State)
    requires |bytes| <= 3
    ensures s == Step(Empty(3), Put("a.tmp", bytes, Complete))
    ensures s.maxBytes == 3 && TempName("a") == "a.tmp" && "a.tmp" in s.meta && s.meta.Keys == s.files.Keys
    ensures Aged(s) && Accounted(s) && SumOfSizes(NoOlder(s.meta, "a.tmp", "a")) == |bytes|
  {
    s := Step(Empty(3), Put("a.tmp", bytes, Complete));
    assert s.meta == map["a.tmp" := ChunkMeta(|bytes|, 1)];
    SumOfOne("a.tmp", ChunkMeta(|bytes|, 1));
    assert NoOlder(s.meta, "a.tmp", "a") == s.meta;
  }

  /** Storing "a" loses the file of "a.tmp" when both fit or the write fails late, but not when "a.tmp" has to go. **/
  lemma TempNamesAtWork()
    ensures var t := Step(Step(Empty(3), Put("a.tmp", "x", Complete)), Put("a", "y", Complete));
      t.meta.Keys != t.files.Keys
    ensures var t := Step(Step(Empty(3), Put("a.tmp", "x", Complete)), Put("a", "y", RenameFailed));
      t.meta.Keys != t.files.Keys
    ensures var t := Step(Step(Empty(3), Put("a.tmp", "xx", Complete)), Put("a", "yyy", Complete));
      t.meta.Keys == t.files.Keys
  {
    var s := OneColliding("x");
    TempNameCollision(s, "a", "y", Complete);
    TempNameCollision(s, "a", "y", RenameFailed);
    var s' := OneColliding("xx");
    TempNameCollision(s', "a", "yyy", Complete);
  }
}
