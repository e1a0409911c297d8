/** What least-recently-used eviction means across two stores that see the same requests under different limits. */
module Lru {
  import opened Basics
  import opened Store
  import opened Recency
  import opened StoreRuns

  /** Subsequences, matched greedily from the front **/

  ghost predicate Sub(a: seq<string>, b: seq<string>) {
    if a == [] then true
    else if b == [] then false
    else if a[0] == b[0] then Sub(a[1..], b[1..])
    else Sub(a, b[1..])
  }

  lemma {:induction false} SubCons(a: seq<string>, b: seq<string>, x: string)
    requires Sub(a, b)
    ensures Sub(a, [x] + b)
    decreases |b|, 1
  {
    assert ([x] + b)[1..] == b;
    if a != [] && a[0] == x {
      SubTail(a, b);
    }
  }

  lemma {:induction false} SubTail(a: seq<string>, b: seq<string>)
    requires Sub(a, b) && a != []
    ensures Sub(a[1..], b)
    decreases |b|, 0
  {
    assert [b[0]] + b[1..] == b;
    if a[0] != b[0] {
      SubTail(a, b[1..]);
    }
    SubCons(a[1..], b[1..], b[0]);
  }

  lemma {:induction false} SubMembers(a: seq<string>, b: seq<string>)
    requires Sub(a, b)
    ensures forall x | x in a :: x in b
    ensures |a| <= |b|
  {
    if a != [] {
      assert b == [b[0]] + b[1..] && a == [a[0]] + a[1..];
      SubMembers(if a[0] == b[0] then a[1..] else a, b[1..]);
    }
  }

  lemma {:induction false} SubWithout(a: seq<string>, b: seq<string>, x: string)
    requires Sub(a, b)
    ensures Sub(Without(a, x), Without(b, x))
  {
    if a != [] {
      if a[0] == b[0] {
        SubWithout(a[1..], b[1..], x);
        if a[0] != x {
          assert Without(a, x)[1..] == Without(a[1..], x);
          assert Without(b, x)[1..] == Without(b[1..], x);
        }
      } else {
        SubWithout(a, b[1..], x);
        if b[0] != x {
          SubCons(Without(a, x), Without(b[1..], x), b[0]);
        }
      }
    }
  }

  lemma {:induction false} SubSnoc(a: seq<string>, b: seq<string>, x: string)
    requires Sub(a, b)
    ensures Sub(a + [x], b + [x]) && Sub(a, b + [x])
  {
    if b == [] {
      assert a + [x] == b + [x] == [x];
      assert [x][1..] == [];
    } else {
      assert (b + [x])[1..] == b[1..] + [x];
      if a == [] {
        SubSnoc(a, b[1..], x);
        assert a + [x] == [x];
        assert Sub([], b[1..] + [x]);
        assert [x][1..] == [];
      } else if a[0] == b[0] {
        assert (a + [x])[1..] == a[1..] + [x];
        SubSnoc(a[1..], b[1..], x);
      } else {
        SubSnoc(a, b[1..], x);
      }
    }
  }

  lemma SubTails(a: seq<string>, b: seq<string>)
    requires Sub(a, b) && a != []
    ensures b != [] && Sub(a[1..], b[1..])
  {
    if a[0] != b[0] {
      SubTail(a, b[1..]);
    }
  }

  /** One common chunk size **/

  ghost predicate Uniform(c: Cache, size: nat) {
    WellFormed(c) && forall h | h in c.data :: |c.data[h]| == size
  }

  lemma {:induction false} UniformTotal(order: seq<string>, data: map<string, string>, size: nat)
    requires forall h | h in order :: h in data && |data[h]| == size
    ensures Total(order, data) == size * |order|
  {
    if order != [] {
      UniformTotal(order[1..], data, size);
      assert size * |order| == size + size * (|order| - 1);
    }
  }

  lemma CapacityOf(n: nat, size: nat, limit: nat)
    requires size > 0
    ensures size * n <= limit <==> n <= limit / size
  {
    if n <= limit / size {
      assert size * n <= size * (limit / size);
    } else {
      assert size * n >= size * (limit / size + 1);
    }
  }

  lemma UniformFit(c: Cache, size: nat, limit: nat)
    requires size > 0 && Uniform(c, size) && |c.order| <= limit / size + 1
    ensures Fit(c, limit) == if |c.order| <= limit / size then c else Tail(c)
  {
    UniformTotal(c.order, c.data, size);
    CapacityOf(|c.order|, size, limit);
    if |c.order| > limit / size {
      TailWellFormed(c);
      CapacityOf(|c.order| - 1, size, limit);
      UniformTotal(Tail(c).order, Tail(c).data, size);
    }
  }

  /**
   * The inductive invariant: the smaller store's recency order is a subsequence of the larger one's, and the larger
   * one's surplus is at most the surplus of its capacity.
   */
  ghost predicate Nested(a: Cache, b: Cache, size: nat, small: nat, large: nat)
    requires size > 0
  {
    && Uniform(a, size) && Uniform(b, size)
    && Sub(a.order, b.order)
    && |a.order| <= small / size && |b.order| <= large / size
    && |b.order| - |a.order| <= large / size - small / size
  }

  predicate SizedRequest(op: Op, size: nat) {
    && Returns(op) && !op.Limit?
    && (op.Put? ==> |op.data| == size)
  }

  lemma UniformRefresh(c: Cache, size: nat, id: string, bytes: string)
    requires Uniform(c, size) && |bytes| == size
    ensures Uniform(Refresh(c, id, bytes), size)
    ensures |Refresh(c, id, bytes).order| == |c.order| + (if id in c.data then 0 else 1)
  {
    DropWellFormed(c, id);
    AddWellFormed(DropId(c, id), id, bytes);
    WithoutDistinct(c.order, id);
  }

  lemma NestedPut(a: Cache, b: Cache, size: nat, small: nat, large: nat, id: string, bytes: string)
    requires size > 0 && 0 < small <= large && Nested(a, b, size, small, large) && |bytes| == size
    ensures var a', b' := Refresh(a, id, bytes), Refresh(b, id, bytes);
      && WellFormed(a') && WellFormed(b')
      && Nested(Fit(a', small), Fit(b', large), size, small, large)
  {
    var a', b' := Refresh(a, id, bytes), Refresh(b, id, bytes);
    UniformRefresh(a, size, id, bytes);
    UniformRefresh(b, size, id, bytes);
    SubMembers(a.order, b.order);
    SubWithout(a.order, b.order, id);
    SubSnoc(Without(a.order, id), Without(b.order, id), id);
    UniformFit(a', size, small);
    UniformFit(b', size, large);
    if |a'.order| > small / size {
      TailWellFormed(a');
      SubTails(a'.order, b'.order);
      SubTail(a'.order, b'.order);
      if |b'.order| > large / size {
        TailWellFormed(b');
      }
    }
  }

  lemma NestedStep(a: Cache, b: Cache, size: nat, small: nat, large: nat, op: Op)
    requires size > 0 && 0 < small <= large && Nested(a, b, size, small, large) && SizedRequest(op, size)
    ensures Nested(ListStep(a, small, op), ListStep(b, large, op), size, small, large)
  {
    SubMembers(a.order, b.order);
    match op
    case Put(id, bytes, _) =>
      NestedPut(a, b, size, small, large, id, bytes);
    case Get(id) =>
      SubWithout(a.order, b.order, id);
      SubSnoc(Without(a.order, id), Without(b.order, id), id);
      if id in b.data {
        UniformRefresh(b, size, id, b.data[id]);
      }
      if id in a.data {
        UniformRefresh(a, size, id, a.data[id]);
      } else {
        assert id !in a.order && Without(a.order, id) == a.order;
      }
    case Del(id) =>
      SubWithout(a.order, b.order, id);
      DropWellFormed(a, id);
      DropWellFormed(b, id);
      WithoutDistinct(a.order, id);
      WithoutDistinct(b.order, id);
  }

  ghost predicate AllSized(ops: seq<Op>, size: nat) {
    forall i | 0 <= i < |ops| :: SizedRequest(ops[i], size)
  }

  lemma {:induction false} SizedLimit(limit: nat, ops: seq<Op>, size: nat)
    requires AllSized(ops, size)
    ensures LimitAfter(limit, ops) == limit
  {
    if ops != [] {
      assert SizedRequest(ops[|ops| - 1], size);
      SizedLimit(limit, ops[..|ops| - 1], size);
    }
  }

  lemma {:induction false} NestedRuns(size: nat, small: nat, large: nat, ops: seq<Op>)
    requires size > 0 && 0 < small <= large && AllSized(ops, size)
    ensures Nested(ListRun(Cache([], map[]), small, ops), ListRun(Cache([], map[]), large, ops), size, small, large)
  {
    var none := Cache([], map[]);
    if ops == [] {
      assert small / size <= large / size by {
        CapacityOf(small / size, size, small);
        CapacityOf(small / size, size, large);
      }
    } else {
      var before, last := ops[..|ops| - 1], ops[|ops| - 1];
      NestedRuns(size, small, large, before);
      SizedLimit(small, before, size);
      SizedLimit(large, before, size);
      NestedStep(ListRun(none, small, before), ListRun(none, large, before), size, small, large, last);
    }
  }

  /**
   * Inclusion: two stores that start empty and see the same stores, loads and deletions of equal-sized chunks, one
   * under a smaller limit. At every moment the smaller one's chunks are among the larger one's, even though a load may
   * succeed, and so change the order, only in the larger one.
   */
  lemma Inclusion(size: nat, small: nat, large: nat, ops: seq<Op>)
    requires size > 0 && 0 < small <= large && AllSized(ops, size)
    ensures Run(Empty(small), ops).meta.Keys <= Run(Empty(large), ops).meta.Keys
  {
    var none := Cache([], map[]);
    assert AllReturn(ops) by {
      assert forall i | 0 <= i < |ops| :: SizedRequest(ops[i], size);
    }
    EmptyIsRepresented(small);
    EmptyIsRepresented(large);
    RunRefines(Empty(small), none, ops, Del(""));
    RunRefines(Empty(large), none, ops, Del(""));
    NestedRuns(size, small, large, ops);
    SubMembers(ListRun(none, small, ops).order, ListRun(none, large, ops).order);
  }

  /** Sizes fixed per chunk, stores only **/

  ghost predicate StoresOnly(ops: seq<Op>) {
    forall i | 0 <= i < |ops| :: ops[i].Put? && Returns(ops[i])
  }

  // An id is always stored with the same size; sha256 ids are always stored with the same bytes.
  ghost predicate SizesFixed(ops: seq<Op>) {
    forall i, j | 0 <= i < |ops| && 0 <= j < |ops| && ops[i].Put? && ops[j].Put? && ops[i].id == ops[j].id ::
      |ops[i].data| == |ops[j].data|
  }

  lemma {:induction false} FitTwice(c: Cache, small: nat, large: nat)
    requires WellFormed(c) && small <= large
    ensures WellFormed(Fit(c, large)) && Fit(Fit(c, large), small) == Fit(c, small)
    decreases |c.order|
  {
    FitWellFormed(c, large);
    if Total(c.order, c.data) > large {
      TailWellFormed(c);
      FitTwice(Tail(c), small, large);
    }
  }

  // Limiting before or after a chunk is refreshed comes to the same.
  lemma {:induction false} FitThenRefresh(c: Cache, limit: nat, id: string, bytes: string)
    requires WellFormed(c) && (id in c.data ==> |c.data[id]| == |bytes|)
    ensures var f := Fit(c, limit);
      && WellFormed(Refresh(f, id, bytes)) && WellFormed(Refresh(c, id, bytes))
      && Fit(Refresh(f, id, bytes), limit) == Fit(Refresh(c, id, bytes), limit)
    decreases |c.order|
  {
    RefreshWellFormed(c, id, bytes);
    FitWellFormed(c, limit);
    RefreshWellFormed(Fit(c, limit), id, bytes);
    if Total(c.order, c.data) > limit {
      TailWellFormed(c);
      FitThenRefresh(Tail(c), limit, id, bytes);
      RefreshOfTail(c, id, bytes);
    }
  }

  lemma RefreshWellFormed(c: Cache, id: string, bytes: string)
    requires WellFormed(c)
    ensures WellFormed(Refresh(c, id, bytes))
    ensures Total(Refresh(c, id, bytes).order, Refresh(c, id, bytes).data)
         == Total(c.order, c.data) - (if id in c.data then |c.data[id]| else 0) + |bytes|
  {
    DropWellFormed(c, id);
    AddWellFormed(DropId(c, id), id, bytes);
  }

  lemma RefreshOfTail(c: Cache, id: string, bytes: string)
    requires WellFormed(c) && c.order != []
    ensures Refresh(Tail(c), id, bytes)
         == if c.order[0] == id then Refresh(c, id, bytes) else Tail(Refresh(c, id, bytes))
  {
    var first, rest := c.order[0], c.order[1..];
    assert c.order == [first] + rest;
    MapUpdates(c.data, first, id, bytes);
    if first == id {
      assert id !in rest;
    } else {
      assert ([first] + Without(rest, id) + [id])[1..] == Without(rest, id) + [id];
    }
  }

  lemma MapUpdates(data: map<string, string>, first: string, id: string, bytes: string)
    ensures first == id ==> (data - {first} - {id})[id := bytes] == (data - {id})[id := bytes]
    ensures first != id ==> (data - {first} - {id})[id := bytes] == (data - {id})[id := bytes] - {first}
  {
  }

  lemma {:induction false} UnlimitedData(ops: seq<Op>, id: string)
    requires StoresOnly(ops) && id in ListRun(Cache([], map[]), 0, ops).data
    ensures exists i :: 0 <= i < |ops| && ops[i].id == id && ops[i].data == ListRun(Cache([], map[]), 0, ops).data[id]
  {
    var before, last := ops[..|ops| - 1], ops[|ops| - 1];
    StoresOnlyLimit(0, before);
    if last.id == id {
      assert ops[|ops| - 1].id == id;
    } else {
      UnlimitedData(before, id);
      var was := ListRun(Cache([], map[]), 0, before).data;
      var i :| 0 <= i < |before| && before[i].id == id && before[i].data == was[id];
      assert ops[i] == before[i];
    }
  }

  lemma {:induction false} StoresOnlyLimit(limit: nat, ops: seq<Op>)
    requires StoresOnly(ops)
    ensures LimitAfter(limit, ops) == limit
  {
    if ops != [] {
      StoresOnlyLimit(limit, ops[..|ops| - 1]);
    }
  }

  /** After stores alone, a limited store holds the longest most recent part that fits of an unlimited one. **/
  lemma {:induction false} StoresOnlyClosedForm(limit: nat, ops: seq<Op>)
    requires limit > 0 && StoresOnly(ops) && SizesFixed(ops)
    ensures ListRun(Cache([], map[]), limit, ops) == Fit(ListRun(Cache([], map[]), 0, ops), limit)
  {
    var none := Cache([], map[]);
    if ops != [] {
      var before, last := ops[..|ops| - 1], ops[|ops| - 1];
      StoresOnlyClosedForm(limit, before);
      StoresOnlyLimit(limit, before);
      StoresOnlyLimit(0, before);
      var u := ListRun(none, 0, before);
      if last.id in u.data {
        UnlimitedData(before, last.id);
        var i :| 0 <= i < |before| && before[i].id == last.id && before[i].data == u.data[last.id];
        assert ops[i] == before[i] && ops[|ops| - 1] == last;
      }
      assert Returns(last) && last.id != "";
      FitThenRefresh(u, limit, last.id, last.data);
    }
  }

  /** With sizes that differ, loads break inclusion **/

  function MixedRequests(x: string, y: string, z: string): seq<Op> {
    [Put(x, "aaa", Complete), Put(y, "b", Complete), Get(x), Put(z, "c", Complete)]
  }

  // The 3-byte chunk x fits only in the larger store, so only there does loading it make y the next to go.
  lemma MixedRequestsBreakInclusion(x: string, y: string, z: string)
    requires x != y && y != z && x != z && IsChunkId(x) && IsChunkId(y) && IsChunkId(z)
    ensures var ops := MixedRequests(x, y, z);
      && AllReturn(ops) && SizesFixed(ops)
      && y in Run(Empty(2), ops).meta && y !in Run(Empty(4), ops).meta
  {
    var ops, none := MixedRequests(x, y, z), Cache([], map[]);
    MixedRequestsReturn(x, y, z);
    EmptyIsRepresented(2);
    EmptyIsRepresented(4);
    RunRefines(Empty(2), none, ops, Del(""));
    RunRefines(Empty(4), none, ops, Del(""));
    MixedRequestsSmall(x, y, z);
    MixedRequestsLarge(x, y, z);
  }

  lemma MixedRequestsReturn(x: string, y: string, z: string)
    requires x != y && y != z && x != z && IsChunkId(x) && IsChunkId(y) && IsChunkId(z)
    ensures AllReturn(MixedRequests(x, y, z)) && SizesFixed(MixedRequests(x, y, z))
  {
  }

  lemma MixedRequestsSmall(x: string, y: string, z: string)
    requires x != y && y != z && x != z && x != "" && y != "" && z != ""
    ensures ListRun(Cache([], map[]), 2, MixedRequests(x, y, z)) == Two(y, "b", z, "c")
  {
    var c1, c2, c3 := FourSteps(2, MixedRequests(x, y, z));
    StoreFirst(x, "aaa", 2);
    StoreFirst(y, "b", 2);
    StoreSecond(y, "b", z, "c", 2);
  }

  lemma MixedRequestsLarge(x: string, y: string, z: string)
    requires x != y && y != z && x != z && x != "" && y != "" && z != ""
    ensures ListRun(Cache([], map[]), 4, MixedRequests(x, y, z)) == Two(x, "aaa", z, "c")
  {
    var d1, d2, d3 := FourSteps(4, MixedRequests(x, y, z));
    StoreFirst(x, "aaa", 4);
    StoreSecond(x, "aaa", y, "b", 4);
    LoadFirst(x, "aaa", y, "b", 4);
    StoreThird(y, "b", x, "aaa", z, "c", 4);
  }

  lemma FourSteps(limit: nat, ops: seq<Op>) returns (c1: Cache, c2: Cache, c3: Cache)
    requires |ops| == 4 && forall i | 0 <= i < 4 :: !ops[i].Limit?
    ensures c1 == ListStep(Cache([], map[]), limit, ops[0])
    ensures WellFormed(c1) && c2 == ListStep(c1, limit, ops[1])
    ensures WellFormed(c2) && c3 == ListStep(c2, limit, ops[2])
    ensures WellFormed(c3) && ListRun(Cache([], map[]), limit, ops) == ListStep(c3, limit, ops[3])
  {
    var none := Cache([], map[]);
    var t1, t2, t3 := [ops[0]], [ops[0], ops[1]], [ops[0], ops[1], ops[2]];
    assert ops[..3] == t3 && t3[..2] == t2 && t2[..1] == t1 && t1[..0] == [];
    c1, c2, c3 := ListRun(none, limit, t1), ListRun(none, limit, t2), ListRun(none, limit, t3);
    assert LimitAfter(limit, []) == LimitAfter(limit, t1) == LimitAfter(limit, t2) == LimitAfter(limit, t3) == limit;
    assert ListRun(none, limit, []) == none;
  }

  function Two(g: string, a: string, h: string, b: string): Cache {
    Cache([g, h], map[g := a, h := b])
  }

  lemma StoreFirst(g: string, a: string, limit: nat)
    requires g != "" && limit > 0
    ensures ListStep(Cache([], map[]), limit, Put(g, a, Complete))
         == if |a| <= limit then Cache([g], map[g := a]) else Cache([], map[])
  {
    var none, c := Cache([], map[]), Cache([g], map[g := a]);
    assert Refresh(none, g, a) == c;
    DropWellFormed(none, g);
    AddWellFormed(DropId(none, g), g, a);
    if |a| > limit {
      TailWellFormed(c);
      assert Tail(c) == none;
      assert Fit(c, limit) == Fit(none, limit) == none;
    }
  }

  lemma StoreSecond(g: string, a: string, h: string, b: string, limit: nat)
    requires g != h && h != "" && |a| + |b| <= limit
    ensures WellFormed(Cache([g], map[g := a]))
    ensures ListStep(Cache([g], map[g := a]), limit, Put(h, b, Complete)) == Two(g, a, h, b)
  {
    var c := Cache([g], map[g := a]);
    assert Without(c.order, h) == [g];
    assert Refresh(c, h, b).order == [g, h];
    assert Refresh(c, h, b).data == map[g := a, h := b];
    TwoWellFormed(g, a, h, b);
  }

  lemma TwoWellFormed(g: string, a: string, h: string, b: string)
    requires g != h
    ensures WellFormed(Two(g, a, h, b))
    ensures Total(Two(g, a, h, b).order, Two(g, a, h, b).data) == |a| + |b|
  {
    var c := Two(g, a, h, b);
    assert c.order[1..] == [h] && [h][1..] == [];
    assert Total([h], c.data) == |b| + Total([], c.data);
  }

  lemma LoadFirst(g: string, a: string, h: string, b: string, limit: nat)
    requires g != h
    ensures WellFormed(Two(g, a, h, b))
    ensures ListStep(Two(g, a, h, b), limit, Get(g)) == Two(h, b, g, a)
  {
    TwoWellFormed(g, a, h, b);
    assert [g, h][1..] == [h] && Without([h], g) == [h];
    assert Refresh(Two(g, a, h, b), g, a).data == Two(h, b, g, a).data;
  }

  lemma StoreThird(g: string, a: string, h: string, b: string, k: string, c: string, limit: nat)
    requires g != h && h != k && g != k && k != ""
    requires |a| + |b| + |c| > limit >= |b| + |c| && limit > 0
    ensures WellFormed(Two(g, a, h, b))
    ensures ListStep(Two(g, a, h, b), limit, Put(k, c, Complete)) == Two(h, b, k, c)
  {
    TwoWellFormed(g, a, h, b);
    TwoWellFormed(h, b, k, c);
    ThirdRefresh(g, a, h, b, k, c);
    var r := Refresh(Two(g, a, h, b), k, c);
    assert Fit(r, limit) == Fit(Two(h, b, k, c), limit) == Two(h, b, k, c);
  }

  lemma ThirdRefresh(g: string, a: string, h: string, b: string, k: string, c: string)
    requires g != h && h != k && g != k
    ensures var r := Refresh(Two(g, a, h, b), k, c);
      && WellFormed(r) && Total(r.order, r.data) == |a| + |b| + |c|
      && r.order != [] && Tail(r) == Two(h, b, k, c)
  {
    var t := Two(g, a, h, b);
    TwoWellFormed(g, a, h, b);
    assert Without(t.order, k) == t.order;
    DropWellFormed(t, k);
    AddWellFormed(DropId(t, k), k, c);
    var r := Refresh(t, k, c);
    assert Tail(r).order == [h, k];
    assert Tail(r).data == map[h := b, k := c];
  }
}
