/** Lists in ascending order of a key that tells their elements apart. */
module Ranking {
  import opened Basics

  ghost predicate Ascending<T(!new)>(s: seq<T>, key: T -> nat) {
    forall i, j | 0 <= i < j < |s| :: key(s[i]) < key(s[j])
  }

  ghost predicate NonDescending<T(!new)>(s: seq<T>, key: T -> nat) {
    forall i, j | 0 <= i < j < |s| :: key(s[i]) <= key(s[j])
  }

  // Putting x behind everything that is not farther.
  lemma InsertNonDescending<T(!new)>(s: seq<T>, j: nat, x: T, key: T -> nat)
    requires NonDescending(s, key) && j <= |s|
    requires j > 0 ==> key(s[j - 1]) <= key(x)
    requires forall h | j <= h < |s| :: key(x) < key(s[h])
    ensures NonDescending(s[..j] + ([x] + s[j..]), key)
  {
    var r := s[..j] + ([x] + s[j..]);
    assert forall h | 0 <= h < j :: r[h] == s[h] && key(s[h]) <= key(x);
    assert forall h | j < h < |r| :: r[h] == s[h - 1];
    forall g, h | 0 <= g < h < |r| ensures key(r[g]) <= key(r[h]) {
      if h > j && g > j {
        assert key(s[g - 1]) <= key(s[h - 1]);
      } else if h > j && g < j {
        assert key(s[g]) <= key(s[h - 1]);
      }
    }
  }

  // No two elements have the same key.
  ghost predicate Keyed<T(!new)>(s: seq<T>, key: T -> nat) {
    forall x, y | x in s && y in s && key(x) == key(y) :: x == y
  }

  function Insert<T(!new)>(x: T, sorted: seq<T>, key: T -> nat): seq<T> {
    if sorted == [] || key(x) < key(sorted[0]) then [x] + sorted
    else [sorted[0]] + Insert(x, sorted[1..], key)
  }

  function Ranked<T(!new)>(s: seq<T>, key: T -> nat): seq<T> {
    if s == [] then [] else Insert(s[0], Ranked(s[1..], key), key)
  }

  function First<T(!new)>(s: seq<T>, k: nat): seq<T> {
    if k <= |s| then s[..k] else s
  }

  lemma {:induction false} InsertIs<T(!new)>(x: T, sorted: seq<T>, key: T -> nat)
    requires Ascending(sorted, key) && forall y | y in sorted :: key(y) != key(x)
    ensures forall y :: y in Insert(x, sorted, key) <==> y == x || y in sorted
    ensures Ascending(Insert(x, sorted, key), key)
    ensures |Insert(x, sorted, key)| == |sorted| + 1
  {
    if sorted != [] {
      var rest := sorted[1..];
      assert sorted == [sorted[0]] + rest;
      AscendingTail(sorted, key);
      if key(x) < key(sorted[0]) {
        AscendingCons(x, sorted, key);
      } else {
        InsertIs(x, rest, key);
        AscendingCons(sorted[0], Insert(x, rest, key), key);
      }
    }
  }

  lemma AscendingTail<T(!new)>(s: seq<T>, key: T -> nat)
    requires Ascending(s, key) && s != []
    ensures Ascending(s[1..], key)
    ensures forall y | y in s[1..] :: key(s[0]) < key(y)
  {
    var t := s[1..];
    assert forall i | 0 <= i < |t| :: t[i] == s[i + 1];
    forall i, j | 0 <= i < j < |t| ensures key(t[i]) < key(t[j]) {
      assert key(s[i + 1]) < key(s[j + 1]);
    }
    forall y | y in t ensures key(s[0]) < key(y) {
      var i :| 0 <= i < |t| && t[i] == y;
      assert key(s[0]) < key(s[i + 1]);
    }
  }

  lemma AscendingCons<T(!new)>(x: T, s: seq<T>, key: T -> nat)
    requires Ascending(s, key) && forall y | y in s :: key(x) < key(y)
    ensures Ascending([x] + s, key)
  {
  }

  lemma {:induction false} RankedIs<T(!new)>(s: seq<T>, key: T -> nat)
    requires Distinct(s) && Keyed(s, key)
    ensures forall x :: x in Ranked(s, key) <==> x in s
    ensures Ascending(Ranked(s, key), key)
    ensures |Ranked(s, key)| == |s|
  {
    if s != [] {
      var rest := s[1..];
      assert s == [s[0]] + rest;
      assert s[0] !in rest;
      RankedIs(rest, key);
      forall y | y in Ranked(rest, key) ensures key(y) != key(s[0]) {
        assert y in rest && y in s && s[0] in s;
      }
      InsertIs(s[0], Ranked(rest, key), key);
    }
  }

  // Two ascending lists of the same elements are the same list.
  lemma {:induction false} AscendingIsUnique<T(!new)>(s: seq<T>, t: seq<T>, key: T -> nat)
    requires Ascending(s, key) && Ascending(t, key)
    requires forall x :: x in s <==> x in t
    ensures s == t
  {
    if s == [] {
      assert forall i | 0 <= i < |t| :: t[i] in s;
    } else {
      assert s[0] in t;
      assert t[0] in s;
      AscendingTail(s, key);
      AscendingTail(t, key);
      assert s == [s[0]] + s[1..] && t == [t[0]] + t[1..];
      assert s[0] == t[0];
      assert s[0] !in s[1..] && t[0] !in t[1..];
      forall x ensures x in s[1..] <==> x in t[1..] {
        assert x in s <==> x == s[0] || x in s[1..];
        assert x in t <==> x == t[0] || x in t[1..];
      }
      AscendingIsUnique(s[1..], t[1..], key);
    }
  }

  /** The first k of a ranking: in order, and ahead of everything left out. **/
  lemma FirstAreLowest<T(!new)>(s: seq<T>, key: T -> nat, k: nat)
    requires Distinct(s) && Keyed(s, key)
    ensures var r := First(Ranked(s, key), k);
      && |r| == (if k <= |s| then k else |s|)
      && (forall x | x in r :: x in s)
      && Ascending(r, key)
      && (forall x, y | x in r && y in s && y !in r :: key(x) < key(y))
  {
    RankedIs(s, key);
    var all := Ranked(s, key);
    var r := First(all, k);
    var rest := all[|r|..];
    assert all == r + rest;
    AscendingSplit(r, rest, key);
    forall y | y in s && y !in r ensures y in rest {
      assert y in all;
    }
    forall x | x in r ensures x in s {
      assert x in all;
    }
  }

  lemma {:induction false} AscendingSplit<T(!new)>(a: seq<T>, b: seq<T>, key: T -> nat)
    requires Ascending(a + b, key)
    ensures Ascending(a, key) && Ascending(b, key)
    ensures forall x, y | x in a && y in b :: key(x) < key(y)
  {
    if a == [] {
      assert a + b == b;
    } else {
      AscendingTail(a + b, key);
      assert (a + b)[1..] == a[1..] + b;
      AscendingSplit(a[1..], b, key);
      assert a == [a[0]] + a[1..];
      assert forall y | y in a[1..] || y in b :: y in (a + b)[1..];
      AscendingCons(a[0], a[1..], key);
    }
  }

  /** Leaving some elements out **/

  function Keep<T(!new)>(s: seq<T>, p: T -> bool): (r: seq<T>)
    ensures forall x | x in r :: x in s && p(x)
    ensures forall x | x in s && p(x) :: x in r
    ensures |r| <= |s|
  {
    if s == [] then []
    else if p(s[0]) then [s[0]] + Keep(s[1..], p)
    else Keep(s[1..], p)
  }

  lemma {:induction false} KeepKeepsOrder<T(!new)>(s: seq<T>, p: T -> bool, key: T -> nat)
    requires Ascending(s, key)
    ensures Ascending(Keep(s, p), key)
  {
    if s != [] {
      AscendingTail(s, key);
      KeepKeepsOrder(s[1..], p, key);
      AscendingCons(s[0], Keep(s[1..], p), key);
    }
  }

  lemma {:induction false} KeepKeepsDistinct<T(!new)>(s: seq<T>, p: T -> bool)
    requires Distinct(s)
    ensures Distinct(Keep(s, p))
  {
    if s != [] {
      assert s == [s[0]] + s[1..];
      KeepKeepsDistinct(s[1..], p);
      assert s[0] !in s[1..];
      DistinctCons(s[0], Keep(s[1..], p));
    }
  }

  lemma {:induction false} KeepSplit<T(!new)>(a: seq<T>, b: seq<T>, p: T -> bool)
    ensures Keep(a + b, p) == Keep(a, p) + Keep(b, p)
  {
    if a == [] {
      assert a + b == b;
    } else {
      assert (a + b)[1..] == a[1..] + b;
      KeepSplit(a[1..], b, p);
    }
  }

  lemma {:induction false} KeepAll<T(!new)>(s: seq<T>, p: T -> bool)
    requires forall x | x in s :: p(x)
    ensures Keep(s, p) == s
  {
    if s != [] {
      KeepAll(s[1..], p);
    }
  }

  // Leaving out before or after ranking comes to the same.
  lemma RankedOfKept<T(!new)>(s: seq<T>, p: T -> bool, key: T -> nat)
    requires Distinct(s) && Keyed(s, key)
    ensures Distinct(Keep(s, p)) && Keyed(Keep(s, p), key)
    ensures Ranked(Keep(s, p), key) == Keep(Ranked(s, key), p)
  {
    KeepKeepsDistinct(s, p);
    RankedIs(s, key);
    KeepKeepsOrder(Ranked(s, key), p, key);
    RankedIs(Keep(s, p), key);
    AscendingIsUnique(Ranked(Keep(s, p), key), Keep(Ranked(s, key), p), key);
  }

  lemma FirstOfKept<T(!new)>(s: seq<T>, p: T -> bool, key: T -> nat, k: nat)
    requires Distinct(s) && Keyed(s, key)
    ensures Keep(First(Ranked(s, key), k), p) <= First(Ranked(Keep(s, p), key), k)
  {
    RankedOfKept(s, p, key);
    var all := Ranked(s, key);
    if k <= |all| {
      assert all == all[..k] + all[k..];
      KeepSplit(all[..k], all[k..], p);
      FirstHasPrefix(Keep(all[..k], p), Keep(all[k..], p), k);
    }
  }

  lemma FirstHasPrefix<T(!new)>(a: seq<T>, b: seq<T>, k: nat)
    requires |a| <= k
    ensures a <= First(a + b, k)
  {
  }

  function OtherKey<T(!new)>(x: T, key: T -> nat): T -> bool {
    y => key(y) != key(x)
  }

  // Where a new element goes: the old ranking is the new one with that element cut out.
  lemma FirstWithNew<T(!new)>(s: seq<T>, x: T, key: T -> nat, k: nat)
    requires Distinct(s) && Keyed(s, key) && forall y | y in s :: key(y) != key(x)
    ensures var old', new' := First(Ranked(s, key), k), First(Insert(x, Ranked(s, key), key), k);
      if x in new' then k > 0 && Keep(new', OtherKey(x, key)) == First(Ranked(s, key), k - 1) else new' == old'
  {
    RankedIs(s, key);
    var r := Ranked(s, key);
    var i := InsertPosition(x, r, key);
    CutOut(r[..i], r[i..], x, key, k);
    assert r == r[..i] + r[i..];
  }

  lemma CutOut<T(!new)>(a: seq<T>, b: seq<T>, x: T, key: T -> nat, k: nat)
    requires forall y | y in a + b :: key(y) != key(x)
    ensures var new' := First(a + ([x] + b), k);
      if x in new' then k > 0 && Keep(new', OtherKey(x, key)) == First(a + b, k - 1)
      else new' == First(a + b, k)
  {
    var p := OtherKey(x, key);
    assert forall y | y in a || y in b :: y in a + b;
    if k > |a| {
      var b' := First(b, k - |a| - 1);
      assert First(a + ([x] + b), k) == a + ([x] + b');
      assert (a + ([x] + b'))[|a|] == x;
      assert First(a + b, k - 1) == a + b';
      assert forall y | y in b' :: y in b;
      KeepSplit(a, [x] + b', p);
      assert ([x] + b')[1..] == b';
      KeepAll(a, p);
      KeepAll(b', p);
    } else {
      assert First(a + ([x] + b), k) == a[..k] == First(a + b, k);
      assert forall y | y in a[..k] :: y in a;
    }
  }

  lemma {:induction false} InsertPosition<T(!new)>(x: T, sorted: seq<T>, key: T -> nat) returns (i: nat)
    ensures i <= |sorted|
    ensures Insert(x, sorted, key) == sorted[..i] + ([x] + sorted[i..])
  {
    if sorted == [] || key(x) < key(sorted[0]) {
      i := 0;
    } else {
      var j := InsertPosition(x, sorted[1..], key);
      i := j + 1;
      assert sorted[..i] == [sorted[0]] + sorted[1..][..j];
      assert sorted[i..] == sorted[1..][j..];
    }
  }
}
