/**
 * The running total: when the unguarded subtraction in the eviction loop goes below zero, what that does, and when
 * failing writes leave the total exact.
 */
module Accounts {
  import opened Store
  import opened Recency
  import opened StoreRuns
  import opened TempNames

  // At no round of the eviction loop is the victim larger than the running total.
  ghost predicate NeverWraps(s: State)
    decreases |s.meta|
  {
    s.used > s.maxBytes && s.meta != map[] ==>
      var o := Oldest(s.meta);
      assert (s.meta - {o}).Keys < s.meta.Keys;
      s.meta[o].size <= s.used && NeverWraps(Evicted(s, o))
  }

  // The chunks older than g.
  function Older(meta: map<string, ChunkMeta>, g: string): map<string, ChunkMeta>
    requires g in meta
  {
    map h | h in meta && meta[h].lastAccess < meta[g].lastAccess :: meta[h]
  }

  // The total covers chunk g, and everything older, if the loop gets as far as g.
  ghost predicate Covers(used: nat, maxBytes: nat, older: nat, size: nat) {
    used > maxBytes + older ==> used >= older + size
  }

  lemma {:induction false} SumTakeOut(meta: map<string, ChunkMeta>, h: string)
    requires h in meta
    ensures SumOfSizes(meta) == meta[h].size + SumOfSizes(meta - {h})
    decreases |meta|
  {
    var p := Pick(meta);
    if p != h {
      assert (meta - {p}).Keys < meta.Keys;
      SumTakeOut(meta - {p}, h);
      SumTakeOut(meta - {h}, p);
      assert meta - {p} - {h} == meta - {h} - {p};
    }
  }

  lemma {:induction false} SumOfPart(part: map<string, ChunkMeta>, meta: map<string, ChunkMeta>)
    requires forall h | h in part :: h in meta && meta[h] == part[h]
    ensures SumOfSizes(part) <= SumOfSizes(meta)
    decreases |part|
  {
    if part != map[] {
      var p := Pick(part);
      assert (part - {p}).Keys < part.Keys;
      SumTakeOut(meta, p);
      SumOfPart(part - {p}, meta - {p});
    }
  }

  // Once the oldest is out, what was older than g is so without it.
  lemma OlderWithoutOldest(s: State, o: string, g: string)
    requires Aged(s) && IsOldest(s.meta, o) && g in s.meta && g != o
    ensures SumOfSizes(Older(s.meta, g)) == s.meta[o].size + SumOfSizes(Older(s.meta - {o}, g))
  {
    var all := Older(s.meta, g);
    assert o in all && all - {o} == Older(s.meta - {o}, g);
    SumTakeOut(all, o);
  }

  ghost predicate CoveredAt(s: State, g: string)
    requires g in s.meta
  {
    Covers(s.used, s.maxBytes, SumOfSizes(Older(s.meta, g)), s.meta[g].size)
  }

  ghost predicate AllCovered(s: State) {
    forall g | g in s.meta :: CoveredAt(s, g)
  }

  // A round that does not wrap makes no difference to the chunks that are left.
  lemma CoveredAfterRound(s: State, o: string)
    requires Aged(s) && IsOldest(s.meta, o) && s.maxBytes < s.used && s.meta[o].size <= s.used
    ensures Aged(Evicted(s, o)) && (AllCovered(s) <==> AllCovered(Evicted(s, o)))
  {
    var t := Evicted(s, o);
    assert Older(s.meta, o) == map[];
    assert CoveredAt(s, o);
    forall g | g in t.meta ensures CoveredAt(s, g) <==> CoveredAt(t, g) {
      OlderWithoutOldest(s, o, g);
    }
    assert forall g :: g in s.meta <==> g == o || g in t.meta;
  }

  /**
   * No round of the eviction loop takes more off the total than there is, if and only if for every chunk the loop gets
   * as far as, the total is no less than the sizes of that chunk and everything older.
   */
  lemma {:induction false} NeverWrapsIff(s: State)
    requires Aged(s)
    ensures NeverWraps(s) <==> AllCovered(s)
    decreases |s.meta|
  {
    if s.used > s.maxBytes && s.meta != map[] {
      var o := Oldest(s.meta);
      if s.meta[o].size <= s.used {
        assert Evicted(s, o).meta.Keys < s.meta.Keys;
        CoveredAfterRound(s, o);
        NeverWrapsIff(Evicted(s, o));
      } else {
        assert Older(s.meta, o) == map[];
        assert !CoveredAt(s, o);
      }
    }
  }

  // The index has the rest, in the same order, and one newer chunk.
  ghost predicate HasNewest(meta: map<string, ChunkMeta>, id: string, rest: map<string, ChunkMeta>) {
    && meta.Keys == rest.Keys + {id} && id !in rest && Older(meta, id) == rest
    && forall g | g in rest :: meta[g] == rest[g] && Older(meta, g) == Older(rest, g)
  }

  lemma NewestOnTop(rest: map<string, ChunkMeta>, id: string, m: ChunkMeta)
    requires id !in rest && forall g | g in rest :: rest[g].lastAccess < m.lastAccess
    ensures HasNewest(rest[id := m], id, rest)
  {
    forall g | g in rest ensures Older(rest[id := m], g) == Older(rest, g) {
      assert rest[id := m][g] == rest[g];
    }
  }

  lemma WrittenIsNewest(s: State, id: string, data: string)
    requires Aged(s)
    ensures HasNewest(Written(s, id, data).meta, id, s.meta - {id})
  {
    var m := ChunkMeta(|data|, s.counter + 1);
    NewestOnTop(s.meta - {id}, id, m);
    assert Written(s, id, data).meta == (s.meta - {id})[id := m];
  }

  ghost predicate PartCovered(meta: map<string, ChunkMeta>, used: nat, maxBytes: nat) {
    forall g | g in meta :: Covers(used, maxBytes, SumOfSizes(Older(meta, g)), meta[g].size)
  }

  // The total, once the chunk is booked, covers the others as far as the loop would get, and then the chunk itself.
  ghost predicate StoreCovered(s: State, id: string, size: nat) {
    var rest, used := s.meta - {id}, UsedWithout(s, id) + size;
    PartCovered(rest, used, s.maxBytes) && Covers(used, s.maxBytes, SumOfSizes(rest), size)
  }

  lemma CoveredInParts(w: State, id: string, rest: map<string, ChunkMeta>)
    requires HasNewest(w.meta, id, rest)
    ensures AllCovered(w) <==>
            PartCovered(rest, w.used, w.maxBytes) && Covers(w.used, w.maxBytes, SumOfSizes(rest), w.meta[id].size)
  {
    if AllCovered(w) {
      assert CoveredAt(w, id);
      forall g | g in rest ensures Covers(w.used, w.maxBytes, SumOfSizes(Older(rest, g)), rest[g].size) {
        assert g in w.meta.Keys && CoveredAt(w, g);
      }
    }
    if PartCovered(rest, w.used, w.maxBytes) && Covers(w.used, w.maxBytes, SumOfSizes(rest), w.meta[id].size) {
      forall g | g in w.meta ensures CoveredAt(w, g) {
        if g != id {
          assert g in w.meta.Keys && g in rest;
        }
      }
    }
  }

  /** And for a store it can be told beforehand, from the index and the total. **/
  lemma StoreNeverWrapsIff(s: State, id: string, data: string)
    requires Aged(s)
    ensures NeverWraps(Written(s, id, data)) <==> StoreCovered(s, id, |data|)
  {
    var w, rest := Written(s, id, data), s.meta - {id};
    assert NeverWraps(w)
      <==> PartCovered(rest, w.used, w.maxBytes) && Covers(w.used, w.maxBytes, SumOfSizes(rest), w.meta[id].size)
    by {
      WrittenAged(s, id, data, Complete);
      NeverWrapsIff(w);
      WrittenIsNewest(s, id, data);
      CoveredInParts(w, id, rest);
    }
  }

  // A total that is not too low never wraps.
  lemma FullTotalNeverWraps(s: State)
    requires Aged(s) && s.used >= SumOfSizes(s.meta)
    ensures NeverWraps(s)
  {
    forall g | g in s.meta ensures CoveredAt(s, g) {
      var upTo := Older(s.meta, g)[g := s.meta[g]];
      assert upTo - {g} == Older(s.meta, g);
      SumTakeOut(upTo, g);
      SumOfPart(upTo, s.meta);
    }
    NeverWrapsIff(s);
  }

  // In particular, none in a consistent state, and each round leaves one.
  lemma EvictionNeverWraps(s: State)
    requires Consistent(s)
    ensures NeverWraps(s)
    ensures s.meta != map[] ==> s.meta[Oldest(s.meta)].size <= s.used && Consistent(Evicted(s, Oldest(s.meta)))
  {
    ConsistentIff(s);
    FullTotalNeverWraps(s);
    if s.meta != map[] {
      var c :| Represents(s, c);
      EvictFront(s, c);
      assert Represents(Evicted(s, c.order[0]), Tail(c));
    }
  }

  /** What a wrap does **/

  lemma {:induction false} HugeTotalEmpties(s: State)
    requires s.used > s.maxBytes + SumOfSizes(s.meta)
    ensures EvictLoop(s).meta == map[] && EvictLoop(s).used == s.used - SumOfSizes(s.meta)
    decreases |s.meta|
  {
    if s.meta != map[] {
      var o := Oldest(s.meta);
      assert (s.meta - {o}).Keys < s.meta.Keys;
      SumTakeOut(s.meta, o);
      HugeTotalEmpties(Evicted(s, o));
    }
  }

  lemma WrappedSub(a: nat, b: nat)
    requires a < b < TWO_TO_64
    ensures WrappingSub(a, b) == TWO_TO_64 + a - b
  {
  }

  lemma {:induction false} WrapEmptiesIndex(s: State)
    requires SumOfSizes(s.meta) + s.maxBytes < TWO_TO_64
    ensures NeverWraps(s) ==> EvictLoop(s).used <= s.used
    ensures !NeverWraps(s) ==>
              EvictLoop(s).meta == map[] && EvictLoop(s).used == TWO_TO_64 + s.used - SumOfSizes(s.meta)
    decreases |s.meta|
  {
    if s.used > s.maxBytes && s.meta != map[] {
      var o := Oldest(s.meta);
      assert (s.meta - {o}).Keys < s.meta.Keys;
      SumTakeOut(s.meta, o);
      var t := Evicted(s, o);
      assert EvictLoop(s) == EvictLoop(t);
      if s.meta[o].size <= s.used {
        WrapEmptiesIndex(t);
      } else {
        WrappedSub(s.used, s.meta[o].size);
        HugeTotalEmpties(t);
      }
    }
  }

  /**
   * If the loop wraps it evicts everything, files included, and leaves a total of 2^64 less the shortfall; otherwise
   * the total does not grow.
   */
  lemma WrapEmptiesStore(s: State)
    requires SumOfSizes(s.meta) + s.maxBytes < TWO_TO_64
    ensures NeverWraps(s) <==> EvictLoop(s).used <= s.used
    ensures !NeverWraps(s) ==>
              && EvictLoop(s).meta == map[] && (forall h | h in s.meta :: h !in EvictLoop(s).files)
              && EvictLoop(s).used == TWO_TO_64 + s.used - SumOfSizes(s.meta)
  {
    WrapEmptiesIndex(s);
    EvictLoopFiles(s);
  }

  /**
   * Stores alone, under one limit of 3 bytes: a failed overwrite of three bytes leaves the total 3 too low, so a chunk
   * of five bytes is let in; evicting it takes 5 off a total of 4, the total wraps, and the loop then throws everything
   * out. The store ends empty with a total just under 2^64.
   */
  lemma FailedStoreCanWrap()
    ensures var ops := [Put("a", "xyz", Complete), Put("a", "w", OpenFailed), Put("c", "vwxyz", Complete),
                        Put("d", "zz", Complete)];
      && Run(Empty(3), ops).meta == map[]
      && Run(Empty(3), ops).used == TWO_TO_64 - 3
  {
    var ops := [Put("a", "xyz", Complete), Put("a", "w", OpenFailed), Put("c", "vwxyz", Complete),
                Put("d", "zz", Complete)];
    var a, c, d := ChunkMeta(3, 1), ChunkMeta(5, 2), ChunkMeta(2, 3);
    assert ops[..3][..2][..1][..0] == [];
    assert Run(Empty(3), ops[..3][..2][..1][..0]) == Empty(3);
    var s1 := Run(Empty(3), ops[..3][..2][..1]);
    assert s1 == Step(Empty(3), ops[0]);
    assert s1.meta == map["a" := a] && s1.used == 3;
    var s2 := Run(Empty(3), ops[..3][..2]);
    assert s2 == Step(s1, ops[1]);
    assert s2.meta == map["a" := a] && s2.used == 0;
    var w3 := Written(s2, "c", "vwxyz");
    assert w3.meta == map["a" := a, "c" := c] && w3.used == 5;
    EvictsOnce(w3, "a", map["c" := c]);
    var s3 := Run(Empty(3), ops[..3]);
    assert s3 == Step(s2, ops[2]) == EnforceLimit(w3);
    var w4 := Written(s3, "d", "zz");
    assert w4.meta == map["c" := c, "d" := d] && w4.used == 4;
    EvictsOldest(w4, "c", map["d" := d]);
    var t4 := Evicted(w4, "c");
    assert t4.used == TWO_TO_64 - 1;
    EvictsOldest(t4, "d", map[]);
    assert EvictLoop(w4) == EvictLoop(t4) == EvictLoop(Evicted(t4, "d")) == Evicted(t4, "d");
    assert Run(Empty(3), ops) == Step(s3, ops[3]) == EnforceLimit(w4);
  }

  // The loop's first victim, in an index where all others are younger.
  lemma EvictsOldest(s: State, id: string, rest: map<string, ChunkMeta>)
    requires s.used > s.maxBytes && id in s.meta && id !in rest && s.meta == rest[id := s.meta[id]]
    requires forall h | h in rest :: s.meta[id].lastAccess < rest[h].lastAccess
    ensures EvictLoop(s) == EvictLoop(Evicted(s, id)) && Evicted(s, id).meta == rest
  {
    var o := Oldest(s.meta);
    assert s.meta[o].lastAccess <= s.meta[id].lastAccess;
    assert o == id;
    assert s.meta - {id} == rest;
  }

  lemma EvictsOnce(s: State, id: string, rest: map<string, ChunkMeta>)
    requires s.used > s.maxBytes && id in s.meta && id !in rest && s.meta == rest[id := s.meta[id]]
    requires forall h | h in rest :: s.meta[id].lastAccess < rest[h].lastAccess
    requires WrappingSub(s.used, s.meta[id].size) <= s.maxBytes
    ensures EvictLoop(s) == Evicted(s, id) && Evicted(s, id).meta == rest
  {
    EvictsOldest(s, id, rest);
  }

  /** When the total is exact **/

  // A store that throws half-way keeps the total exact only if there was nothing to overwrite.
  lemma FailedStoreAccounting(s: State, id: string, write: Write)
    requires Consistent(s) && !write.Complete?
    ensures Accounted(FailedStore(s, id, write)) <==> id !in s.meta || s.meta[id].size == 0
  {
    ConsistentIsAccounted(s);
    var c :| Represents(s, c);
    if id in s.meta {
      DropWellFormed(c, id);
    }
  }

  lemma {:induction false} EvictionKeepsShortfall(s: State)
    requires NeverWraps(s) && s.used <= SumOfSizes(s.meta)
    ensures var t := EvictLoop(s); SumOfSizes(t.meta) - t.used == SumOfSizes(s.meta) - s.used
    decreases |s.meta|
  {
    if s.used > s.maxBytes && s.meta != map[] {
      var o := Oldest(s.meta);
      assert (s.meta - {o}).Keys < s.meta.Keys;
      SumTakeOut(s.meta, o);
      EvictionKeepsShortfall(Evicted(s, o));
    }
  }

  ghost predicate StepNeverWraps(s: State, op: Op) {
    match op
    case Put(id, data, write) =>
      id == "" || !write.Complete? || s.maxBytes == 0 || NeverWraps(Written(s, id, data))
    case Limit(bytes) => bytes == 0 || NeverWraps(s.(maxBytes := bytes))
    case _ => true
  }

  ghost predicate RunNeverWraps(s: State, ops: seq<Op>) {
    ops == [] ||
    (RunNeverWraps(s, ops[..|ops| - 1]) && StepNeverWraps(Run(s, ops[..|ops| - 1]), ops[|ops| - 1]))
  }

  // No failing write took anything off the total since the books were last squared. They are squared where everything
  // but the chunk stored or deleted is empty: the total is not taken below zero for it.
  ghost predicate Squared(s: State, ops: seq<Op>) {
    ops == [] ||
    var before, last := ops[..|ops| - 1], ops[|ops| - 1];
    var t := Run(s, before);
    match last
    case Put(id, _, write) =>
      if id == "" then Squared(s, before)
      else if write.Complete? then Squared(s, before) || SumOfSizes(t.meta - {id}) == 0
      else Squared(s, before) && (id in t.meta ==> t.meta[id].size == 0)
    case Del(id) => Squared(s, before) || SumOfSizes(t.meta - {id}) == 0
    case _ => Squared(s, before)
  }

  lemma ShortfallWithout(s: State, id: string)
    requires s.used <= SumOfSizes(s.meta)
    ensures var rest := SumOfSizes(s.meta - {id});
      UsedWithout(s, id) <= rest && (UsedWithout(s, id) == rest <==> Accounted(s) || rest == 0)
  {
    if id in s.meta {
      SumTakeOut(s.meta, id);
    } else {
      assert s.meta - {id} == s.meta;
    }
  }

  lemma ShortfallWritten(s: State, id: string, data: string)
    requires s.used <= SumOfSizes(s.meta)
    ensures var w := Written(s, id, data);
      w.used <= SumOfSizes(w.meta) && (Accounted(w) <==> Accounted(s) || SumOfSizes(s.meta - {id}) == 0)
  {
    var w := Written(s, id, data);
    ShortfallWithout(s, id);
    assert w.meta - {id} == s.meta - {id};
    SumTakeOut(w.meta, id);
  }

  lemma ShortfallFailed(s: State, id: string)
    requires s.used <= SumOfSizes(s.meta)
    ensures UsedWithout(s, id) <= SumOfSizes(s.meta)
    ensures UsedWithout(s, id) == SumOfSizes(s.meta) <==> Accounted(s) && (id in s.meta ==> s.meta[id].size == 0)
  {
    if id in s.meta {
      SumTakeOut(s.meta, id);
    }
  }

  // A load changes ages, and no sizes.
  lemma {:induction false} SumOfSameSizes(m: map<string, ChunkMeta>, n: map<string, ChunkMeta>)
    requires m.Keys == n.Keys && forall h | h in m :: m[h].size == n[h].size
    ensures SumOfSizes(m) == SumOfSizes(n)
    decreases |m|
  {
    if m != map[] {
      var p := Pick(m);
      assert p in n.Keys;
      assert (m - {p}).Keys < m.Keys;
      SumTakeOut(n, p);
      SumOfSameSizes(m - {p}, n - {p});
    }
  }

  lemma ShortfallStep(s: State, op: Op)
    requires s.used <= SumOfSizes(s.meta) && StepNeverWraps(s, op)
    ensures var t := Step(s, op); t.used <= SumOfSizes(t.meta)
    ensures Accounted(Step(s, op))
       <==> match op
            case Put(id, _, write) =>
              if id == "" then Accounted(s)
              else if write.Complete? then Accounted(s) || SumOfSizes(s.meta - {id}) == 0
              else Accounted(s) && (id in s.meta ==> s.meta[id].size == 0)
            case Del(id) => Accounted(s) || SumOfSizes(s.meta - {id}) == 0
            case _ => Accounted(s)
  {
    match op
    case Put(id, data, write) =>
      if id != "" && write.Complete? {
        ShortfallWritten(s, id, data);
        if s.maxBytes != 0 {
          EvictionKeepsShortfall(Written(s, id, data));
        }
      } else {
        ShortfallFailed(s, id);
      }
    case Get(id) => SumOfSameSizes(s.meta, LoadChunk(s, id).meta);
    case Del(id) => ShortfallWithout(s, id);
    case Limit(bytes) =>
      if bytes != 0 {
        EvictionKeepsShortfall(s.(maxBytes := bytes));
      }
  }

  /**
   * After any run in which no eviction wraps, failing writes included, the total is never above the sum of the indexed
   * sizes, and equal to it if and only if no failing write has taken anything off since the books were last squared.
   */
  lemma {:induction false} AccountedAfterRunIff(s: State, ops: seq<Op>)
    requires Accounted(s) && RunNeverWraps(s, ops)
    ensures Run(s, ops).used <= SumOfSizes(Run(s, ops).meta)
    ensures Accounted(Run(s, ops)) <==> Squared(s, ops)
  {
    if ops != [] {
      var before, last := ops[..|ops| - 1], ops[|ops| - 1];
      AccountedAfterRunIff(s, before);
      ShortfallStep(Run(s, before), last);
    }
  }
}
