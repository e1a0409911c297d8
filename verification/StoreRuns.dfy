/** Whole runs of the storage manager: exact accounting, agreement of index and directory, and the limit. **/
module StoreRuns {
  import opened Basics
  import opened Store
  import opened Recency

  ghost predicate AllReturn(ops: seq<Op>) {
    forall i | 0 <= i < |ops| :: Returns(ops[i])
  }

  // The limit in force after ops.
  function LimitAfter(maxBytes: nat, ops: seq<Op>): nat {
    if ops == [] then maxBytes
    else if ops[|ops| - 1].Limit? then ops[|ops| - 1].bytes
    else LimitAfter(maxBytes, ops[..|ops| - 1])
  }

  ghost function ListRun(c: Cache, maxBytes: nat, ops: seq<Op>): (r: Cache)
    requires WellFormed(c)
    ensures WellFormed(r)
  {
    if ops == [] then c
    else
      var before := ListRun(c, maxBytes, ops[..|ops| - 1]);
      var limit := LimitAfter(maxBytes, ops[..|ops| - 1]);
      ListStepWellFormed(before, limit, ops[|ops| - 1]);
      ListStep(before, limit, ops[|ops| - 1])
  }

  lemma {:induction false} LimitOfRun(s: State, ops: seq<Op>)
    ensures Run(s, ops).maxBytes == LimitAfter(s.maxBytes, ops)
  {
    if ops != [] {
      var before := ops[..|ops| - 1];
      LimitOfRun(s, before);
      StepLimit(Run(s, before), ops[|ops| - 1]);
    }
  }

  lemma StepLimit(s: State, op: Op)
    ensures Step(s, op).maxBytes == if op.Limit? then op.bytes else s.maxBytes
  {
    match op
    case Put(id, data, _) => EvictLoopLimit(Written(s, id, data));
    case Get(_) =>
    case Del(_) =>
    case Limit(bytes) => EvictLoopLimit(s.(maxBytes := bytes));
  }

  lemma {:induction false} EvictLoopLimit(s: State)
    ensures EvictLoop(s).maxBytes == s.maxBytes
    decreases |s.meta|
  {
    if s.used > s.maxBytes && s.meta != map[] {
      var t := Evicted(s, Oldest(s.meta));
      assert t.meta.Keys < s.meta.Keys;
      EvictLoopLimit(t);
    }
  }

  /** Every run of the manager is a run of the recency list, and answers alike. **/
  lemma {:induction false} RunRefines(s: State, c: Cache, ops: seq<Op>, next: Op)
    requires Represents(s, c) && AllReturn(ops) && Returns(next)
    ensures Represents(Run(s, ops), ListRun(c, s.maxBytes, ops))
    ensures ReplyTo(Run(s, ops), next) == ListReply(ListRun(c, s.maxBytes, ops), next)
  {
    if ops != [] {
      var before, last := ops[..|ops| - 1], ops[|ops| - 1];
      assert AllReturn(before) && Returns(last);
      RunRefines(s, c, before, last);
      LimitOfRun(s, before);
      StepRefines(Run(s, before), ListRun(c, s.maxBytes, before), last);
    }
    StepRefines(Run(s, ops), ListRun(c, s.maxBytes, ops), next);
  }

  lemma EmptyIsRepresented(maxBytes: nat)
    ensures Represents(Empty(maxBytes), Cache([], map[]))
  {
  }

  lemma {:induction false} RunsStayConsistent(s: State, ops: seq<Op>)
    requires Consistent(s) && AllReturn(ops)
    ensures Consistent(Run(s, ops))
  {
    var c :| Represents(s, c);
    RunRefines(s, c, ops, Del(""));
  }

  /** Accounting **/

  ghost function Pick(meta: map<string, ChunkMeta>): (h: string)
    requires meta != map[]
    ensures h in meta
  {
    var h :| h in meta; h
  }

  // The sum of the recorded sizes, in no particular order.
  ghost function SumOfSizes(meta: map<string, ChunkMeta>): nat
    decreases |meta|
  {
    if meta == map[] then 0
    else
      var h := Pick(meta);
      assert (meta - {h}).Keys < meta.Keys;
      meta[h].size + SumOfSizes(meta - {h})
  }

  lemma {:induction false} SumOfListed(meta: map<string, ChunkMeta>, order: seq<string>, data: map<string, string>)
    requires Distinct(order) && (forall h :: h in order <==> h in meta)
    requires forall h | h in meta :: h in data && meta[h].size == |data[h]|
    ensures SumOfSizes(meta) == Total(order, data)
    decreases |meta|
  {
    assert forall i | 0 <= i < |order| :: order[i] in meta;
    if meta != map[] {
      var h := Pick(meta);
      assert (meta - {h}).Keys < meta.Keys;
      WithoutDistinct(order, h);
      TotalWithout(order, h, data);
      SumOfListed(meta - {h}, Without(order, h), data);
    }
  }

  // The running total is the sum of the indexed sizes.
  ghost predicate Accounted(s: State) {
    s.used == SumOfSizes(s.meta)
  }

  lemma ConsistentIsAccounted(s: State)
    requires Consistent(s)
    ensures Accounted(s)
  {
    var c :| Represents(s, c);
    SumOfListed(s.meta, c.order, s.files);
  }

  /**
   * After any run of returning operations from a consistent state the total is exact, clock values are distinct and
   * not ahead of the counter, and a store or a new limit has brought the total under a non-zero limit.
   */
  lemma {:induction false} ExactAccounting(s: State, ops: seq<Op>)
    requires Consistent(s) && AllReturn(ops)
    ensures var t := Run(s, ops);
      && Accounted(t) && WellKept(t)
      && (ops != [] && (ops[|ops| - 1].Put? || ops[|ops| - 1].Limit?) && t.maxBytes != 0 ==> t.used <= t.maxBytes)
  {
    var c :| Represents(s, c);
    RunRefines(s, c, ops, Del(""));
    var t := Run(s, ops);
    assert Consistent(t);
    ConsistentIsAccounted(t);
    RepresentsIsWellKept(t, ListRun(c, s.maxBytes, ops));
    if ops != [] {
      var before, last := ops[..|ops| - 1], ops[|ops| - 1];
      var b := Run(s, before);
      RunRefines(s, c, before, last);
      StepLimit(b, last);
      var cb := ListRun(c, s.maxBytes, before);
      LimitOfRun(s, before);
      if last.Put? {
        DropWellFormed(cb, last.id);
        AddWellFormed(DropId(cb, last.id), last.id, last.data);
        FitWellFormed(Refresh(cb, last.id, last.data), b.maxBytes);
      } else if last.Limit? {
        FitWellFormed(cb, last.bytes);
      }
    }
  }

  /** Index and directory **/

  // The bytes of the last store of id.
  function LastPut(ops: seq<Op>, id: string): Option<string> {
    if ops == [] then None
    else if ops[|ops| - 1].Put? && ops[|ops| - 1].id == id then Some(ops[|ops| - 1].data)
    else LastPut(ops[..|ops| - 1], id)
  }

  // The operation puts its bytes in place.
  predicate Stores(op: Op) {
    op.Put? && op.id != "" && op.write.Complete?
  }

  lemma StepFiles(s: State, op: Op, id: string)
    requires id in Step(s, op).files
    ensures if Stores(op) && op.id == id then Step(s, op).files[id] == op.data
            else id in s.files && Step(s, op).files[id] == s.files[id]
  {
    match op
    case Put(h, data, _) =>
      if Stores(op) {
        EvictLoopKeeps(Written(s, h, data));
      }
    case Get(_) =>
    case Del(_) =>
    case Limit(bytes) => EvictLoopKeeps(s.(maxBytes := bytes));
  }

  // The bytes under id after ops: those of its last store, or those held at the start.
  function LastBytes(files: map<string, string>, ops: seq<Op>, id: string): Option<string> {
    match LastPut(ops, id)
    case Some(bytes) => Some(bytes)
    case None => if id in files then Some(files[id]) else None
  }

  /**
   * In every state a run from a consistent one can reach, a chunk is indexed if and only if loading it succeeds, and
   * loading gives the bytes of its last store, or, if the run has none, those held at the start; they are as long as
   * the recorded size.
   */
  lemma {:induction false} LoadGivesLastStore(s0: State, ops: seq<Op>, id: string)
    requires Consistent(s0) && AllReturn(ops)
    ensures var s := Run(s0, ops);
      && (id in s.meta <==> ReplyTo(s, Get(id)) != Threw)
      && (id in s.meta ==> && ReplyTo(s, Get(id)).Data?
                           && LastBytes(s0.files, ops, id) == Some(ReplyTo(s, Get(id)).bytes)
                           && s.meta[id].size == |ReplyTo(s, Get(id)).bytes|)
  {
    var c :| Represents(s0, c);
    RunRefines(s0, c, ops, Get(id));
    var s := Run(s0, ops);
    if ops != [] && id in s.files {
      var before, last := ops[..|ops| - 1], ops[|ops| - 1];
      LoadGivesLastStore(s0, before, id);
      RunRefines(s0, c, before, last);
      StepFiles(Run(s0, before), last, id);
    }
  }

  // In particular, a manager that starts empty only ever serves what was last stored with it.
  lemma NewStoreGivesLastStore(maxBytes: nat, ops: seq<Op>, id: string)
    requires AllReturn(ops) && id in Run(Empty(maxBytes), ops).meta
    ensures ReplyTo(Run(Empty(maxBytes), ops), Get(id)).Data?
    ensures LastPut(ops, id) == Some(ReplyTo(Run(Empty(maxBytes), ops), Get(id)).bytes)
  {
    EmptyIsRepresented(maxBytes);
    LoadGivesLastStore(Empty(maxBytes), ops, id);
  }

  /** The limit **/

  // c.order[k..] fits, and no longer part of the recent end does.
  ghost predicate LongestFitting(c: Cache, maxBytes: nat, k: nat)
    requires WellFormed(c) && k <= |c.order|
  {
    && TotalFrom(c, k) <= maxBytes
    && forall j | 0 <= j < k :: TotalFrom(c, j) > maxBytes
  }

  ghost function TotalFrom(c: Cache, k: nat): nat
    requires WellFormed(c) && k <= |c.order|
  {
    assert forall h | h in c.order[k..] :: h in c.order;
    Total(c.order[k..], c.data)
  }

  lemma TotalFromTail(c: Cache, k: nat)
    requires WellFormed(c) && k < |c.order| && WellFormed(Tail(c))
    ensures TotalFrom(c, k + 1) == TotalFrom(Tail(c), k)
  {
    assert c.order[k + 1..] == Tail(c).order[k..];
    assert forall h | h in c.order[k + 1..] :: h in c.order;
    assert forall h | h in Tail(c).order[k..] :: h in Tail(c).order;
    TotalFrame(c.order[k + 1..], c.data, Tail(c).data);
  }

  // What the limit keeps is the longest most recently used part that fits, with its bytes.
  lemma {:induction false} FitIsLongestSuffix(c: Cache, maxBytes: nat)
    requires WellFormed(c)
    ensures var f := Fit(c, maxBytes);
      && |f.order| <= |c.order| && f.order == c.order[|c.order| - |f.order|..]
      && LongestFitting(c, maxBytes, |c.order| - |f.order|)
    ensures forall h | h in Fit(c, maxBytes).data :: h in c.data && Fit(c, maxBytes).data[h] == c.data[h]
    decreases |c.order|
  {
    assert c.order[0..] == c.order;
    if Total(c.order, c.data) > maxBytes {
      TailWellFormed(c);
      var t := Tail(c);
      FitIsLongestSuffix(t, maxBytes);
      var k := |t.order| - |Fit(t, maxBytes).order|;
      LongestFittingTail(c, maxBytes, k);
      assert t.order[k..] == c.order[k + 1..];
    }
  }

  lemma LongestFittingTail(c: Cache, maxBytes: nat, k: nat)
    requires WellFormed(c) && c.order != [] && Total(c.order, c.data) > maxBytes
    requires WellFormed(Tail(c)) && k <= |Tail(c).order| && LongestFitting(Tail(c), maxBytes, k)
    ensures LongestFitting(c, maxBytes, k + 1)
  {
    assert c.order[0..] == c.order;
    TotalFromTail(c, k);
    forall j | 0 <= j < k + 1 ensures TotalFrom(c, j) > maxBytes {
      if j > 0 {
        TotalFromTail(c, j - 1);
      }
    }
  }

  // The list from h on: h and everything used since.
  function Since(order: seq<string>, h: string): (r: seq<string>)
    requires h in order
    ensures forall g | g in r :: g in order
  {
    if order[0] == h then order else Since(order[1..], h)
  }

  ghost function TotalSince(c: Cache, h: string): nat
    requires WellFormed(c) && h in c.order
  {
    Total(Since(c.order, h), c.data)
  }

  lemma {:induction false} SinceTotal(order: seq<string>, h: string, data: map<string, string>)
    requires h in order && forall g | g in order :: g in data
    ensures Total(Since(order, h), data) <= Total(order, data)
  {
    if order[0] != h {
      SinceTotal(order[1..], h, data);
    }
  }

  lemma TotalSinceTail(c: Cache, h: string)
    requires WellFormed(c) && h in c.order && h != c.order[0] && WellFormed(Tail(c))
    ensures h in Tail(c).order && TotalSince(Tail(c), h) == TotalSince(c, h)
  {
    assert c.order == [c.order[0]] + c.order[1..];
    TotalFrame(Since(Tail(c).order, h), c.data, Tail(c).data);
  }

  lemma {:induction false} SinceSnoc(order: seq<string>, g: string, x: string)
    requires g in order
    ensures g in order + [x] && Since(order + [x], g) == Since(order, g) + [x]
  {
    assert (order + [x])[0] == order[0];
    if order[0] != g {
      assert (order + [x])[1..] == order[1..] + [x];
      SinceSnoc(order[1..], g, x);
    }
  }

  lemma {:induction false} SinceDistinct(order: seq<string>, g: string)
    requires Distinct(order) && g in order
    ensures Distinct(Since(order, g))
  {
    if order[0] != g {
      SinceDistinct(order[1..], g);
    }
  }

  lemma SinceAdded(d: Cache, id: string, data: string, g: string)
    requires WellFormed(d) && g in d.order && id !in d.data
    ensures var r := AddId(d, id, data);
      WellFormed(r) && g in r.order && TotalSince(r, g) == TotalSince(d, g) + |data|
  {
    AddWellFormed(d, id, data);
    SinceSnoc(d.order, g, id);
    TotalSnoc(Since(d.order, g), id, d.data, data);
  }

  lemma TotalSnoc(some: seq<string>, id: string, was: map<string, string>, data: string)
    requires id !in some && forall h | h in some :: h in was
    ensures forall h | h in some + [id] :: h in was[id := data]
    ensures Total(some + [id], was[id := data]) == Total(some, was) + |data|
  {
    var now := was[id := data];
    TotalFrame(some, was, now);
    TotalAppend(some, [id], now);
    assert Total([id], now) == |data| + Total([id][1..], now);
  }

  // What the limit keeps, chunk by chunk: those that fit together with everything used since.
  lemma {:induction false} FitKeeps(c: Cache, maxBytes: nat, h: string)
    requires WellFormed(c) && h in c.order
    ensures h in Fit(c, maxBytes).data <==> TotalSince(c, h) <= maxBytes
    decreases |c.order|
  {
    SinceTotal(c.order, h, c.data);
    if Total(c.order, c.data) > maxBytes {
      TailWellFormed(c);
      FitIsLongestSuffix(Tail(c), maxBytes);
      if c.order[0] != h {
        TotalSinceTail(c, h);
        FitKeeps(Tail(c), maxBytes, h);
      }
    }
  }

  lemma {:induction false} FitKeepsLast(c: Cache, maxBytes: nat)
    requires WellFormed(c) && c.order != []
    ensures var last := c.order[|c.order| - 1];
      last in Fit(c, maxBytes).data <==> |c.data[last]| <= maxBytes
    decreases |c.order|
  {
    var last := c.order[|c.order| - 1];
    if Total(c.order, c.data) <= maxBytes {
      assert c.order == c.order[..|c.order| - 1] + [last];
      TotalAppend(c.order[..|c.order| - 1], [last], c.data);
      assert Total([last], c.data) == |c.data[last]| + Total([last][1..], c.data);
    } else {
      TailWellFormed(c);
      if |c.order| == 1 {
        assert Tail(c).order == [];
        assert Total(c.order, c.data) == |c.data[last]|;
        assert Fit(Tail(c), maxBytes) == Tail(c);
      } else {
        FitKeepsLast(Tail(c), maxBytes);
        assert Tail(c).order[|Tail(c).order| - 1] == last;
        assert last != c.order[0];
      }
    }
  }

  // A chunk just stored is still there afterwards if and only if it fits on its own.
  lemma JustStoredSurvives(s: State, id: string, data: string)
    requires Consistent(s) && IsChunkId(id)
    ensures id in StoreChunk(s, id, data).meta <==> s.maxBytes == 0 || |data| <= s.maxBytes
  {
    var c :| Represents(s, c);
    StepRefines(s, c, Put(id, data, Complete));
    DropWellFormed(c, id);
    AddWellFormed(DropId(c, id), id, data);
    var r := Refresh(c, id, data);
    if s.maxBytes != 0 {
      FitKeepsLast(r, s.maxBytes);
    }
    assert Agree(StoreChunk(s, id, data));
  }

  /** Storing where there is room **/

  // The guard of the eviction loop will be false.
  predicate Fits(s: State, id: string, size: nat) {
    s.maxBytes == 0 || UsedWithout(s, id) + size <= s.maxBytes
  }

  lemma StoreWithRoom(s: State, id: string, data: string)
    requires Consistent(s) && IsChunkId(id) && Fits(s, id, |data|)
    ensures var t := StoreChunk(s, id, data);
      && Consistent(t) && t.maxBytes == s.maxBytes
      && t.files == s.files[id := data]
      && t.meta.Keys == s.meta.Keys + {id}
      && t.used <= s.used + |data|
  {
    var c :| Represents(s, c);
    var w, t := Written(s, id, data), StoreChunk(s, id, data);
    TempNamesAreNotChunkIds(id);
    assert s.files - {TempName(id)} == s.files;
    assert w.files == s.files[id := data] && w.meta.Keys == s.meta.Keys + {id};
    assert t == w || t == Persist(w);
    Removes(s, c, id);
    DropWellFormed(c, id);
    assert Consistent(t) by {
      StepRefines(s, c, Put(id, data, Complete));
    }
  }

  /** What is deleted is gone, whether it was indexed or only lay in the directory; everything else stays. **/
  lemma DeletedIsGone(s: State, id: string, other: string)
    requires other != id
    ensures var t := Step(s, Del(id));
      && ReplyTo(t, Get(id)) == Threw && id !in t.meta
      && ReplyTo(t, Get(other)) == ReplyTo(s, Get(other)) && (other in t.meta <==> other in s.meta)
  {
  }

  /** Agreement survives failing writes, though the total does not **/

  lemma {:induction false} EvictLoopAgrees(s: State)
    requires Agree(s)
    ensures Agree(EvictLoop(s))
    decreases |s.meta|
  {
    if s.used > s.maxBytes && s.meta != map[] {
      var t := Evicted(s, Oldest(s.meta));
      assert t.meta.Keys < s.meta.Keys;
      EvictLoopAgrees(t);
    }
  }

  lemma WrittenAgrees(s: State, id: string, data: string)
    requires Agree(s) && IsChunkId(id)
    ensures Agree(Written(s, id, data))
  {
    TempNamesAreNotChunkIds(id);
    assert s.files - {TempName(id)} == s.files;
  }

  /** Whatever writes fail, index and directory agree as long as names are those of chunks. **/
  lemma StepKeepsAgreement(s: State, op: Op)
    requires Agree(s) && (op.Put? ==> op.id == "" || IsChunkId(op.id))
    ensures Agree(Step(s, op))
  {
    match op
    case Put(id, data, _) =>
      if Stores(op) {
        WrittenAgrees(s, id, data);
        EvictLoopAgrees(Written(s, id, data));
      } else if id != "" {
        TempNamesAreNotChunkIds(id);
        assert s.files - {TempName(id)} == s.files;
      }
    case Get(_) =>
    case Del(id) => assert (s.meta - {id}).Keys == (s.files - {id}).Keys;
    case Limit(bytes) => EvictLoopAgrees(s.(maxBytes := bytes));
  }

  lemma LoadKeeps(s: State, id: string)
    requires Consistent(s)
    ensures var t := LoadChunk(s, id);
      Consistent(t) && t.maxBytes == s.maxBytes && t.files == s.files && t.meta.Keys == s.meta.Keys && t.used == s.used
  {
    var c :| Represents(s, c);
    StepRefines(s, c, Get(id));
  }
}
