/**
 * Two stores that see the same requests, one under a smaller limit, with chunks of any sizes: when the chunks of the
 * smaller stay among those of the larger.
 */
module Inclusion {
  import opened Basics
  import opened Store
  import opened Recency
  import opened StoreRuns
  import opened Lru

  // A limit, and a looser one or none.
  predicate Looser(small: nat, large: nat) {
    0 < small && (large == 0 || small <= large)
  }

  ghost predicate SameBytes(a: Cache, b: Cache) {
    forall h | h in a.data :: h in b.data && a.data[h] == b.data[h]
  }

  // A load that succeeds only in the second store.
  predicate LargerOnlyHit(a: Cache, b: Cache, op: Op) {
    op.Get? && op.id in b.data && op.id !in a.data
  }

  predicate Request(op: Op) {
    Returns(op) && !op.Limit?
  }

  /** The recent end **/

  predicate IsSuffix(a: seq<string>, b: seq<string>) {
    a == b || (b != [] && IsSuffix(a, b[1..]))
  }

  // The smaller list is the recent end of the larger, with the same bytes.
  ghost predicate RecentEnd(a: Cache, b: Cache) {
    WellFormed(a) && WellFormed(b) && IsSuffix(a.order, b.order) && SameBytes(a, b)
  }

  lemma {:induction false} SuffixMembers(a: seq<string>, b: seq<string>)
    requires IsSuffix(a, b)
    ensures forall h | h in a :: h in b
    ensures a != [] ==> b != [] && a[|a| - 1] == b[|b| - 1]
    ensures |a| <= |b|
  {
    if a != b {
      SuffixMembers(a, b[1..]);
    }
  }

  lemma {:induction false} SuffixWithout(a: seq<string>, b: seq<string>, x: string)
    requires IsSuffix(a, b)
    ensures IsSuffix(Without(a, x), Without(b, x))
  {
    if a != b {
      SuffixWithout(a, b[1..], x);
      if b[0] != x {
        assert ([b[0]] + Without(b[1..], x))[1..] == Without(b[1..], x);
      }
    }
  }

  lemma {:induction false} SuffixSnoc(a: seq<string>, b: seq<string>, x: string)
    requires IsSuffix(a, b)
    ensures IsSuffix(a + [x], b + [x])
  {
    if a != b {
      assert (b + [x])[1..] == b[1..] + [x];
      SuffixSnoc(a, b[1..], x);
    }
  }

  lemma {:induction false} SuffixOfTail(a: seq<string>, b: seq<string>)
    requires IsSuffix(a, b) && a != []
    ensures IsSuffix(a[1..], b)
  {
    if a != b {
      SuffixOfTail(a, b[1..]);
    }
  }

  lemma RefreshRecentEnd(a: Cache, b: Cache, id: string, bytes: string)
    requires RecentEnd(a, b)
    ensures RecentEnd(Refresh(a, id, bytes), Refresh(b, id, bytes))
  {
    RefreshWellFormed(a, id, bytes);
    RefreshWellFormed(b, id, bytes);
    SuffixWithout(a.order, b.order, id);
    SuffixSnoc(Without(a.order, id), Without(b.order, id), id);
  }

  lemma TailRecentEnd(a: Cache, b: Cache)
    requires RecentEnd(a, b) && b.order != []
    ensures if a.order == b.order then RecentEnd(Tail(a), Tail(b)) else RecentEnd(a, Tail(b))
  {
    TailWellFormed(b);
    assert b.order == [b.order[0]] + b.order[1..];
    if a.order == b.order {
      TailWellFormed(a);
    } else {
      SuffixMembers(a.order, b.order[1..]);
    }
  }

  lemma {:induction false} FitRecentEnd(a: Cache, b: Cache, small: nat, large: nat)
    requires RecentEnd(a, b) && small <= large
    ensures RecentEnd(Fit(a, small), Fit(b, large))
    decreases |b.order|
  {
    if Total(b.order, b.data) <= large {
      FitRecentEndOf(a, b, small);
    } else {
      TailRecentEnd(a, b);
      if a.order == b.order {
        TotalFrame(a.order, a.data, b.data);
        FitRecentEnd(Tail(a), Tail(b), small, large);
      } else {
        FitRecentEnd(a, Tail(b), small, large);
      }
    }
  }

  lemma {:induction false} FitRecentEndOf(a: Cache, b: Cache, small: nat)
    requires RecentEnd(a, b)
    ensures RecentEnd(Fit(a, small), b)
    decreases |a.order|
  {
    if Total(a.order, a.data) > small {
      TailWellFormed(a);
      SuffixOfTail(a.order, b.order);
      FitRecentEndOf(Tail(a), b, small);
    }
  }

  lemma LimitedRecentEnd(a: Cache, b: Cache, small: nat, large: nat)
    requires RecentEnd(a, b) && Looser(small, large)
    ensures RecentEnd(Limited(a, small), Limited(b, large))
  {
    if large == 0 {
      FitRecentEndOf(a, b, small);
    } else {
      FitRecentEnd(a, b, small, large);
    }
  }

  /**
   * Stores of any size, deletions, and loads keep the smaller store the recent end of the larger, with one exception,
   * which always breaks it: a load that succeeds only in the larger store, unless the smaller is empty.
   */
  lemma RecentEndStepIff(a: Cache, b: Cache, small: nat, large: nat, op: Op)
    requires RecentEnd(a, b) && Looser(small, large) && Request(op)
    ensures RecentEnd(ListStep(a, small, op), ListStep(b, large, op)) <==> !LargerOnlyHit(a, b, op) || a.order == []
  {
    match op
    case Put(id, bytes, _) =>
      RefreshRecentEnd(a, b, id, bytes);
      LimitedRecentEnd(Refresh(a, id, bytes), Refresh(b, id, bytes), small, large);
    case Get(id) =>
      if id in a.data {
        RefreshRecentEnd(a, b, id, a.data[id]);
      } else if id in b.data {
        HitBreaksRecentEnd(a, b, id);
      }
    case Del(id) =>
      DropWellFormed(a, id);
      DropWellFormed(b, id);
      SuffixWithout(a.order, b.order, id);
  }

  lemma HitBreaksRecentEnd(a: Cache, b: Cache, id: string)
    requires RecentEnd(a, b) && id in b.data && id !in a.data
    ensures RecentEnd(a, Refresh(b, id, b.data[id])) <==> a.order == []
  {
    var b' := Refresh(b, id, b.data[id]);
    RefreshWellFormed(b, id, b.data[id]);
    if a.order == [] {
      EmptyIsSuffix(b'.order);
    } else {
      assert a.order[|a.order| - 1] in a.order && b'.order[|b'.order| - 1] == id;
      if RecentEnd(a, b') {
        SuffixMembers(a.order, b'.order);
      }
    }
  }

  lemma {:induction false} EmptyIsSuffix(b: seq<string>)
    ensures IsSuffix([], b)
  {
    if b != [] {
      EmptyIsSuffix(b[1..]);
    }
  }

  /** Whole runs **/

  // The list of a new store after a run.
  ghost function ListAfter(limit: nat, ops: seq<Op>): (c: Cache)
    ensures WellFormed(c)
  {
    ListRun(Cache([], map[]), limit, ops)
  }

  ghost predicate Requests(ops: seq<Op>) {
    forall i | 0 <= i < |ops| :: Request(ops[i])
  }

  lemma {:induction false} RequestsKeepLimit(limit: nat, ops: seq<Op>)
    requires Requests(ops)
    ensures LimitAfter(limit, ops) == limit
  {
    if ops != [] {
      assert Request(ops[|ops| - 1]);
      RequestsKeepLimit(limit, ops[..|ops| - 1]);
    }
  }

  lemma RequestsReturn(ops: seq<Op>)
    requires Requests(ops)
    ensures AllReturn(ops)
  {
    assert forall i | 0 <= i < |ops| :: Request(ops[i]);
  }

  lemma ListAfterStep(limit: nat, before: seq<Op>, last: Op)
    requires Requests(before)
    ensures ListAfter(limit, before + [last]) == ListStep(ListAfter(limit, before), limit, last)
  {
    RequestsKeepLimit(limit, before);
    assert (before + [last])[..|before|] == before;
  }

  // Each request is answered by both stores alike, or by the smaller alone, or the smaller holds nothing.
  ghost predicate HitsAgree(small: nat, large: nat, before: seq<Op>, op: Op) {
    !LargerOnlyHit(ListAfter(small, before), ListAfter(large, before), op) || ListAfter(small, before).order == []
  }

  /**
   * Over a whole run the smaller store is at every moment the recent end of the larger if and only if no load ever
   * succeeds in the larger alone while the smaller holds anything.
   */
  lemma {:induction false} RecentEndRunsIff(small: nat, large: nat, ops: seq<Op>)
    requires Looser(small, large) && Requests(ops)
    ensures (forall i | 0 <= i <= |ops| :: RecentEnd(ListAfter(small, ops[..i]), ListAfter(large, ops[..i])))
       <==> (forall i | 0 <= i < |ops| :: HitsAgree(small, large, ops[..i], ops[i]))
  {
    if forall i | 0 <= i < |ops| :: HitsAgree(small, large, ops[..i], ops[i]) {
      forall i | 0 <= i <= |ops| ensures RecentEnd(ListAfter(small, ops[..i]), ListAfter(large, ops[..i])) {
        RecentEndRuns(small, large, ops, i);
      }
    }
    if forall i | 0 <= i <= |ops| :: RecentEnd(ListAfter(small, ops[..i]), ListAfter(large, ops[..i])) {
      forall i | 0 <= i < |ops| ensures HitsAgree(small, large, ops[..i], ops[i]) {
        assert RecentEnd(ListAfter(small, ops[..i]), ListAfter(large, ops[..i]));
        assert RecentEnd(ListAfter(small, ops[..i + 1]), ListAfter(large, ops[..i + 1]));
        StepOfRun(small, ops, i);
        StepOfRun(large, ops, i);
        RecentEndStepIff(ListAfter(small, ops[..i]), ListAfter(large, ops[..i]), small, large, ops[i]);
      }
    }
  }

  lemma StepOfRun(limit: nat, ops: seq<Op>, i: nat)
    requires Requests(ops) && i < |ops|
    ensures ListAfter(limit, ops[..i + 1]) == ListStep(ListAfter(limit, ops[..i]), limit, ops[i])
    ensures Request(ops[i])
  {
    assert ops[..i + 1] == ops[..i] + [ops[i]];
    ListAfterStep(limit, ops[..i], ops[i]);
  }

  lemma {:induction false} RecentEndRuns(small: nat, large: nat, ops: seq<Op>, n: nat)
    requires Looser(small, large) && Requests(ops) && n <= |ops|
    requires forall i | 0 <= i < n :: HitsAgree(small, large, ops[..i], ops[i])
    ensures RecentEnd(ListAfter(small, ops[..n]), ListAfter(large, ops[..n]))
  {
    if n > 0 {
      RecentEndRuns(small, large, ops, n - 1);
      StepOfRun(small, ops, n - 1);
      StepOfRun(large, ops, n - 1);
      assert HitsAgree(small, large, ops[..n - 1], ops[n - 1]);
      RecentEndStepIff(ListAfter(small, ops[..n - 1]), ListAfter(large, ops[..n - 1]), small, large, ops[n - 1]);
    }
  }

  // What a client sees of it: no load has ever been answered with data by the larger store and refused by the smaller.
  ghost predicate AnswersAgree(small: nat, large: nat, ops: seq<Op>) {
    forall i | 0 <= i < |ops| && ops[i].Get? ::
      ReplyTo(Run(Empty(large), ops[..i]), ops[i]).Data? ==> ReplyTo(Run(Empty(small), ops[..i]), ops[i]).Data?
  }

  lemma AfterIs(limit: nat, ops: seq<Op>, next: Op)
    requires Requests(ops) && Request(next)
    ensures Represents(Run(Empty(limit), ops), ListAfter(limit, ops))
    ensures ReplyTo(Run(Empty(limit), ops), next) == ListReply(ListAfter(limit, ops), next)
  {
    RequestsReturn(ops);
    EmptyIsRepresented(limit);
    RunRefines(Empty(limit), Cache([], map[]), ops, next);
  }

  /**
   * Inclusion: after stores of chunks of any sizes, the same id with different sizes included, deletions, and loads
   * none of which succeeded in the larger store alone, every chunk of the smaller store is in the larger one, with the
   * same bytes.
   */
  lemma InclusionWhereAnswersAgree(small: nat, large: nat, ops: seq<Op>)
    requires Looser(small, large) && Requests(ops) && AnswersAgree(small, large, ops)
    ensures var s, l := Run(Empty(small), ops), Run(Empty(large), ops);
      s.meta.Keys <= l.meta.Keys && forall h | h in s.files :: h in l.files && s.files[h] == l.files[h]
  {
    forall i | 0 <= i < |ops| ensures HitsAgree(small, large, ops[..i], ops[i]) {
      assert Request(ops[i]);
      AfterIs(small, ops[..i], ops[i]);
      AfterIs(large, ops[..i], ops[i]);
    }
    RecentEndRuns(small, large, ops, |ops|);
    assert ops[..|ops|] == ops;
    AfterIs(small, ops, Del(""));
    AfterIs(large, ops, Del(""));
  }
}
