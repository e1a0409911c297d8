/**
 * Loads that succeed only in the larger store, and chunks of any sizes: exactly when inclusion survives whatever is
 * stored next. What counts is how much more has been used in the larger store than in the smaller since each chunk
 * they share.
 */
module InclusionGap {
  import opened Basics
  import opened Store
  import opened Recency
  import opened StoreRuns
  import opened Lru
  import opened Inclusion

  // The smaller store's chunks are among the larger one's, in the same order and with the same bytes.
  ghost predicate Within(a: Cache, b: Cache) {
    WellFormed(a) && WellFormed(b) && Sub(a.order, b.order) && SameBytes(a, b)
  }

  // Since the last use of a shared chunk the larger store has not used more than the smaller by more than the gap.
  ghost predicate GapBounded(a: Cache, b: Cache, gap: nat)
    requires WellFormed(a) && WellFormed(b)
  {
    forall h | h in a.order && h in b.order :: TotalSince(b, h) <= TotalSince(a, h) + gap
  }

  ghost predicate Nests(a: Cache, b: Cache, gap: nat) {
    Within(a, b) && GapBounded(a, b, gap)
  }

  /** Lists **/

  lemma {:induction false} SubSince(a: seq<string>, b: seq<string>, h: string)
    requires Sub(a, b) && Distinct(b) && h in a
    ensures h in b && forall g | g in Since(a, h) :: g in Since(b, h)
  {
    assert b == [b[0]] + b[1..];
    if a[0] == b[0] {
      if a[0] == h {
        SubMembers(a, b);
      } else {
        SubSince(a[1..], b[1..], h);
      }
    } else {
      SubSince(a, b[1..], h);
    }
  }

  lemma {:induction false} SinceWithout(order: seq<string>, id: string, h: string)
    requires h in order && h != id
    ensures h in Without(order, id) && Since(Without(order, id), h) == Without(Since(order, h), id)
  {
    if order[0] != h {
      SinceWithout(order[1..], id, h);
      if order[0] != id {
        assert ([order[0]] + Without(order[1..], id))[1..] == Without(order[1..], id);
      }
    }
  }

  lemma SinceDrop(c: Cache, id: string, h: string)
    requires WellFormed(c) && h in c.order && h != id
    ensures WellFormed(DropId(c, id)) && h in DropId(c, id).order
    ensures TotalSince(DropId(c, id), h) == TotalSince(c, h) - (if id in Since(c.order, h) then |c.data[id]| else 0)
  {
    DropWellFormed(c, id);
    SinceWithout(c.order, id, h);
    SinceDistinct(c.order, h);
    var some := Since(c.order, h);
    TotalWithout(some, id, c.data);
    TotalFrame(Without(some, id), c.data, c.data - {id});
  }

  lemma {:induction false} SinceLast(order: seq<string>, id: string)
    requires id !in order
    ensures Since(order + [id], id) == [id]
  {
    if order == [] {
      assert order + [id] == [id];
    } else {
      assert (order + [id])[1..] == order[1..] + [id];
      SinceLast(order[1..], id);
    }
  }

  lemma SinceRefreshed(c: Cache, id: string, bytes: string)
    requires WellFormed(c)
    ensures var r := Refresh(c, id, bytes); WellFormed(r) && id in r.order && TotalSince(r, id) == |bytes|
  {
    RefreshWellFormed(c, id, bytes);
    var r := Refresh(c, id, bytes);
    SinceLast(Without(c.order, id), id);
    assert Total([id], r.data) == |bytes| + Total([id][1..], r.data);
  }

  /** One request **/

  lemma DropNests(a: Cache, b: Cache, gap: nat, id: string)
    requires Nests(a, b, gap)
    ensures Nests(DropId(a, id), DropId(b, id), gap)
  {
    var a', b' := DropId(a, id), DropId(b, id);
    DropWellFormed(a, id);
    DropWellFormed(b, id);
    SubWithout(a.order, b.order, id);
    forall h | h in a'.order && h in b'.order ensures TotalSince(b', h) <= TotalSince(a', h) + gap {
      SubSince(a.order, b.order, h);
      SinceDrop(a, id, h);
      SinceDrop(b, id, h);
      assert TotalSince(b, h) <= TotalSince(a, h) + gap;
    }
  }

  lemma AddNests(a: Cache, b: Cache, gap: nat, id: string, bytes: string)
    requires Nests(a, b, gap) && id !in a.data && id !in b.data
    ensures Nests(AddId(a, id, bytes), AddId(b, id, bytes), gap)
  {
    var a', b' := AddId(a, id, bytes), AddId(b, id, bytes);
    AddWellFormed(a, id, bytes);
    AddWellFormed(b, id, bytes);
    SubSnoc(a.order, b.order, id);
    forall h | h in a'.order && h in b'.order ensures TotalSince(b', h) <= TotalSince(a', h) + gap {
      if h == id {
        AddedSinceItself(a, id, bytes);
        AddedSinceItself(b, id, bytes);
      } else {
        assert h in a.order && h in b.order;
        SinceAdded(a, id, bytes, h);
        SinceAdded(b, id, bytes, h);
        assert TotalSince(b, h) <= TotalSince(a, h) + gap;
      }
    }
  }

  lemma AddedSinceItself(c: Cache, id: string, bytes: string)
    requires WellFormed(c) && id !in c.data
    ensures var r := AddId(c, id, bytes); WellFormed(r) && id in r.order && TotalSince(r, id) == |bytes|
  {
    assert Without(c.order, id) == c.order && c.data - {id} == c.data;
    SinceRefreshed(c, id, bytes);
  }

  lemma RefreshNests(a: Cache, b: Cache, gap: nat, id: string, bytes: string)
    requires Nests(a, b, gap)
    ensures Nests(Refresh(a, id, bytes), Refresh(b, id, bytes), gap)
  {
    DropNests(a, b, gap, id);
    AddNests(DropId(a, id), DropId(b, id), gap, id, bytes);
  }

  lemma TailsWithin(a: Cache, b: Cache)
    requires Within(a, b) && a.order != [] && b.order != [] && a.order[0] == b.order[0]
    ensures Within(Tail(a), Tail(b))
  {
    TailWellFormed(a);
    TailWellFormed(b);
    assert a.order == [a.order[0]] + a.order[1..] && b.order == [b.order[0]] + b.order[1..];
  }

  lemma TailsNest(a: Cache, b: Cache, gap: nat)
    requires Nests(a, b, gap) && a.order != [] && b.order != [] && a.order[0] == b.order[0]
    ensures Nests(Tail(a), Tail(b), gap)
  {
    TailWellFormed(a);
    TailWellFormed(b);
    forall h | h in Tail(a).order && h in Tail(b).order
      ensures TotalSince(Tail(b), h) <= TotalSince(Tail(a), h) + gap
    {
      assert h in a.order[1..] && h in b.order[1..];
      TotalSinceTail(a, h);
      TotalSinceTail(b, h);
      assert TotalSince(b, h) <= TotalSince(a, h) + gap;
    }
    TailsWithin(a, b);
  }

  lemma TailOfLargerNests(a: Cache, b: Cache, gap: nat)
    requires Nests(a, b, gap) && b.order != [] && (a.order == [] || a.order[0] != b.order[0])
    ensures Nests(a, Tail(b), gap)
  {
    TailWellFormed(b);
    assert b.order == [b.order[0]] + b.order[1..];
    SubMembers(a.order, b.order[1..]);
    forall h | h in a.order && h in Tail(b).order ensures TotalSince(Tail(b), h) <= TotalSince(a, h) + gap {
      TotalSinceTail(b, h);
      assert TotalSince(b, h) <= TotalSince(a, h) + gap;
    }
  }

  lemma TailOfSmallerNests(a: Cache, b: Cache, gap: nat)
    requires Nests(a, b, gap) && a.order != []
    ensures Nests(Tail(a), b, gap)
  {
    TailWellFormed(a);
    SubTail(a.order, b.order);
    assert a.order == [a.order[0]] + a.order[1..];
    forall h | h in Tail(a).order && h in b.order ensures TotalSince(b, h) <= TotalSince(Tail(a), h) + gap {
      TotalSinceTail(a, h);
      assert TotalSince(b, h) <= TotalSince(a, h) + gap;
    }
  }

  lemma {:induction false} FitOfSmallerNests(a: Cache, b: Cache, gap: nat, small: nat)
    requires Nests(a, b, gap)
    ensures Nests(Fit(a, small), b, gap)
    decreases |a.order|
  {
    if Total(a.order, a.data) > small {
      TailWellFormed(a);
      TailOfSmallerNests(a, b, gap);
      FitOfSmallerNests(Tail(a), b, gap, small);
    }
  }

  lemma {:induction false} FitNests(a: Cache, b: Cache, small: nat, large: nat)
    requires small <= large && Nests(a, b, large - small)
    ensures Nests(Fit(a, small), Fit(b, large), large - small)
    decreases |b.order|
  {
    if Total(b.order, b.data) <= large {
      FitOfSmallerNests(a, b, large - small, small);
    } else {
      TailWellFormed(b);
      if a.order != [] && a.order[0] == b.order[0] {
        assert TotalSince(b, b.order[0]) <= TotalSince(a, a.order[0]) + (large - small);
        TailWellFormed(a);
        TailsNest(a, b, large - small);
        FitNests(Tail(a), Tail(b), small, large);
      } else {
        TailOfLargerNests(a, b, large - small);
        FitNests(a, Tail(b), small, large);
      }
    }
  }

  /** Whatever is requested, other than a load that succeeds only in the larger store, keeps the gap bounded. **/
  lemma NestsStep(a: Cache, b: Cache, small: nat, large: nat, op: Op)
    requires 0 < small <= large && Nests(a, b, large - small) && Request(op) && !LargerOnlyHit(a, b, op)
    ensures Nests(ListStep(a, small, op), ListStep(b, large, op), large - small)
  {
    match op
    case Put(id, bytes, _) =>
      RefreshNests(a, b, large - small, id, bytes);
      FitNests(Refresh(a, id, bytes), Refresh(b, id, bytes), small, large);
    case Get(id) =>
      if id in a.data {
        RefreshNests(a, b, large - small, id, a.data[id]);
      }
    case Del(id) =>
      DropNests(a, b, large - small, id);
  }

  // A load that succeeds only in the larger store leaves order and bytes nested.
  lemma LargerOnlyHitStaysWithin(a: Cache, b: Cache, id: string)
    requires Within(a, b) && id in b.data && id !in a.data
    ensures Within(a, Refresh(b, id, b.data[id]))
  {
    RefreshWellFormed(b, id, b.data[id]);
    SubWithout(a.order, b.order, id);
    SubSnoc(Without(a.order, id), Without(b.order, id), id);
  }

  /** And beyond the gap the right store breaks inclusion at once. **/
  lemma BeyondTheGap(a: Cache, b: Cache, small: nat, large: nat, h: string, id: string, bytes: string)
    requires 0 < small <= large && Within(a, b) && h in a.order && h in b.order
    requires TotalSince(a, h) <= small && TotalSince(b, h) > TotalSince(a, h) + (large - small)
    requires id !in a.data && id !in b.data && id != "" && |bytes| == small - TotalSince(a, h)
    ensures h in ListStep(a, small, Put(id, bytes, Complete)).data
    ensures h !in ListStep(b, large, Put(id, bytes, Complete)).data
  {
    RefreshIsAdd(a, id, bytes);
    RefreshIsAdd(b, id, bytes);
    SinceAdded(a, id, bytes, h);
    SinceAdded(b, id, bytes, h);
    FitKeeps(AddId(a, id, bytes), small, h);
    FitKeeps(AddId(b, id, bytes), large, h);
  }

  lemma RefreshIsAdd(c: Cache, id: string, bytes: string)
    requires WellFormed(c) && id !in c.data
    ensures Refresh(c, id, bytes) == AddId(c, id, bytes)
  {
    assert Without(c.order, id) == c.order && c.data - {id} == c.data;
  }

  /** The exact condition **/

  ghost predicate Included(a: Cache, b: Cache) {
    forall h | h in a.data :: h in b.data
  }

  // No store of a chunk new to both, of any size, loses inclusion.
  ghost predicate SurvivesStores(a: Cache, b: Cache, small: nat, large: nat)
    requires WellFormed(a) && WellFormed(b)
  {
    forall id, bytes | IsChunkId(id) && id !in a.data && id !in b.data ::
      Included(ListStep(a, small, Put(id, bytes, Complete)), ListStep(b, large, Put(id, bytes, Complete)))
  }

  lemma {:induction false} LongerThanAll(order: seq<string>) returns (n: nat)
    ensures forall h | h in order :: |h| < n
  {
    if order == [] {
      n := 1;
    } else {
      var m := LongerThanAll(order[1..]);
      n := if |order[0]| < m then m else |order[0]| + 1;
      assert order == [order[0]] + order[1..];
    }
  }

  lemma NewId(a: Cache, b: Cache) returns (id: string)
    requires WellFormed(a) && WellFormed(b)
    ensures IsChunkId(id) && id !in a.data && id !in b.data
  {
    var n := LongerThanAll(a.order + b.order);
    id := seq(n + 4, _ => 'a');
    assert id[|id| - 4..][0] == 'a';
    forall h | h in a.data || h in b.data ensures |h| < n {
      assert h in a.order || h in b.order;
      assert h in a.order + b.order;
    }
  }

  /**
   * Of two stores within their limits, one within the other: inclusion survives whatever single chunk is stored next
   * if and only if the gap is bounded by the difference of the limits.
   */
  lemma SurvivesStoresIff(a: Cache, b: Cache, small: nat, large: nat)
    requires 0 < small <= large && Within(a, b) && Total(a.order, a.data) <= small
    ensures SurvivesStores(a, b, small, large) <==> GapBounded(a, b, large - small)
  {
    if GapBounded(a, b, large - small) {
      forall id, bytes | IsChunkId(id) && id !in a.data && id !in b.data
        ensures Included(ListStep(a, small, Put(id, bytes, Complete)), ListStep(b, large, Put(id, bytes, Complete)))
      {
        NestsStep(a, b, small, large, Put(id, bytes, Complete));
      }
    } else {
      var h :| h in a.order && h in b.order && TotalSince(b, h) > TotalSince(a, h) + (large - small);
      SinceTotal(a.order, h, a.data);
      var id := NewId(a, b);
      var bytes := seq(small - TotalSince(a, h), _ => ' ');
      BeyondTheGap(a, b, small, large, h, id, bytes);
      assert !Included(ListStep(a, small, Put(id, bytes, Complete)), ListStep(b, large, Put(id, bytes, Complete)));
    }
  }

  /** Whole runs, loads that succeed only in the larger store included **/

  ghost predicate NestsAfter(small: nat, large: nat, ops: seq<Op>)
    requires small <= large
  {
    Nests(ListAfter(small, ops), ListAfter(large, ops), large - small)
  }

  // If op is a load that succeeds only in the larger store, it leaves the gap bounded.
  ghost predicate BearableHit(small: nat, large: nat, before: seq<Op>, op: Op)
    requires small <= large
  {
    var a, b := ListAfter(small, before), ListAfter(large, before);
    if LargerOnlyHit(a, b, op) then
      RefreshWellFormed(b, op.id, b.data[op.id]);
      GapBounded(a, Refresh(b, op.id, b.data[op.id]), large - small)
    else true
  }

  lemma NestsStepIff(a: Cache, b: Cache, small: nat, large: nat, op: Op)
    requires 0 < small <= large && Nests(a, b, large - small) && Request(op)
    ensures LargerOnlyHit(a, b, op) ==> WellFormed(Refresh(b, op.id, b.data[op.id]))
    ensures Nests(ListStep(a, small, op), ListStep(b, large, op), large - small)
       <==> (LargerOnlyHit(a, b, op) ==> GapBounded(a, Refresh(b, op.id, b.data[op.id]), large - small))
  {
    if LargerOnlyHit(a, b, op) {
      RefreshWellFormed(b, op.id, b.data[op.id]);
      LargerOnlyHitStaysWithin(a, b, op.id);
    } else {
      NestsStep(a, b, small, large, op);
    }
  }

  lemma {:induction false} NestsRuns(small: nat, large: nat, ops: seq<Op>, n: nat)
    requires 0 < small <= large && Requests(ops) && n <= |ops|
    requires forall i | 0 <= i < n :: BearableHit(small, large, ops[..i], ops[i])
    ensures NestsAfter(small, large, ops[..n])
  {
    if n > 0 {
      NestsRuns(small, large, ops, n - 1);
      StepOfRun(small, ops, n - 1);
      StepOfRun(large, ops, n - 1);
      assert BearableHit(small, large, ops[..n - 1], ops[n - 1]);
      NestsStepIff(ListAfter(small, ops[..n - 1]), ListAfter(large, ops[..n - 1]), small, large, ops[n - 1]);
    }
  }

  // The smaller store is nested in the larger and stays included whatever is stored next.
  ghost predicate LastsAfter(small: nat, large: nat, ops: seq<Op>) {
    var a, b := ListAfter(small, ops), ListAfter(large, ops);
    Within(a, b) && SurvivesStores(a, b, small, large)
  }

  /**
   * For any run of stores, loads and deletions of chunks of any sizes on two new stores: at every moment the smaller
   * is nested in the larger and stays included whatever is stored next, if and only if every load that succeeds only
   * in the larger store leaves the gap bounded.
   */
  lemma LastingInclusionIff(small: nat, large: nat, ops: seq<Op>)
    requires 0 < small <= large && Requests(ops)
    ensures (forall i | 0 <= i <= |ops| :: LastsAfter(small, large, ops[..i]))
       <==> (forall i | 0 <= i < |ops| :: BearableHit(small, large, ops[..i], ops[i]))
  {
    if (forall i | 0 <= i < |ops| :: BearableHit(small, large, ops[..i], ops[i])) {
      forall i | 0 <= i <= |ops| ensures LastsAfter(small, large, ops[..i]) {
        NestsRuns(small, large, ops, i);
        StaysWithinLimit(small, ops, i);
        SurvivesStoresIff(ListAfter(small, ops[..i]), ListAfter(large, ops[..i]), small, large);
      }
    }
    if (forall i | 0 <= i <= |ops| :: LastsAfter(small, large, ops[..i])) {
      forall i | 0 <= i < |ops| ensures BearableHit(small, large, ops[..i], ops[i]) {
        assert LastsAfter(small, large, ops[..i]) && LastsAfter(small, large, ops[..i + 1]);
        SurvivingIsNested(small, large, ops, i);
        SurvivingIsNested(small, large, ops, i + 1);
        StepOfRun(small, ops, i);
        StepOfRun(large, ops, i);
        NestsStepIff(ListAfter(small, ops[..i]), ListAfter(large, ops[..i]), small, large, ops[i]);
      }
    }
  }

  lemma SurvivingIsNested(small: nat, large: nat, ops: seq<Op>, i: nat)
    requires 0 < small <= large && Requests(ops) && i <= |ops|
    requires LastsAfter(small, large, ops[..i])
    ensures NestsAfter(small, large, ops[..i])
  {
    StaysWithinLimit(small, ops, i);
    SurvivesStoresIff(ListAfter(small, ops[..i]), ListAfter(large, ops[..i]), small, large);
  }

  lemma {:induction false} StaysWithinLimit(limit: nat, ops: seq<Op>, n: nat)
    requires limit > 0 && Requests(ops) && n <= |ops|
    ensures var c := ListAfter(limit, ops[..n]); Total(c.order, c.data) <= limit
  {
    if n > 0 {
      StaysWithinLimit(limit, ops, n - 1);
      StepOfRun(limit, ops, n - 1);
      StepWithinLimit(ListAfter(limit, ops[..n - 1]), limit, ops[n - 1]);
    }
  }

  lemma StepWithinLimit(c: Cache, limit: nat, op: Op)
    requires limit > 0 && WellFormed(c) && Total(c.order, c.data) <= limit && Request(op)
    ensures WellFormed(ListStep(c, limit, op))
    ensures Total(ListStep(c, limit, op).order, ListStep(c, limit, op).data) <= limit
  {
    match op
    case Put(id, bytes, _) =>
      RefreshWellFormed(c, id, bytes);
      FitWellFormed(Refresh(c, id, bytes), limit);
    case Get(id) =>
      if id in c.data {
        RefreshWellFormed(c, id, c.data[id]);
      }
    case Del(id) =>
      DropWellFormed(c, id);
  }
}
