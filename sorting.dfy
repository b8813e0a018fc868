/** Python's built-in `sorted(xs, reverse=...)` on timestamps (plain integers).
    On integers equal elements are indistinguishable, so the sorted list is the
    unique ordered permutation of the input; `SortedUnique` proves this, which is
    what makes every computation over a sorted copy independent of the order of
    its input. */
module Sorting {

  /** `a` may precede `b` in a list sorted ascending, or descending when `reverse` holds. */
  predicate Before(a: int, b: int, reverse: bool) {
    if reverse then a >= b else a <= b
  }

  ghost predicate InOrder(s: seq<int>, reverse: bool) {
    forall i, j :: 0 <= i < j < |s| ==> Before(s[i], s[j], reverse)
  }

  /** Inserts `x` into the ordered list `s` at the first place where it fits. */
  function Insert(x: int, s: seq<int>, reverse: bool): (r: seq<int>)
    requires InOrder(s, reverse)
    ensures InOrder(r, reverse)
    ensures multiset(r) == multiset(s) + multiset{x}
  {
    if s == [] || Before(x, s[0], reverse) then
      [x] + s
    else
      var rest := Insert(x, s[1..], reverse);
      assert s == [s[0]] + s[1..];
      InsertAfterHead(x, s, rest, reverse);
      [s[0]] + rest
  }

  /** Inserting `x` behind the head of `s` keeps the head in front. */
  lemma InsertAfterHead(x: int, s: seq<int>, rest: seq<int>, reverse: bool)
    requires s != [] && InOrder(s, reverse) && !Before(x, s[0], reverse)
    requires InOrder(rest, reverse)
    requires multiset(rest) == multiset(s[1..]) + multiset{x}
    ensures InOrder([s[0]] + rest, reverse)
  {
    forall j | 0 <= j < |rest| ensures Before(s[0], rest[j], reverse) {
      assert rest[j] in multiset(rest);
      if rest[j] != x {
        assert rest[j] in multiset(s[1..]);
        var m :| 0 <= m < |s[1..]| && s[1..][m] == rest[j];
        assert s[m + 1] == rest[j];
      }
    }
  }

  /** The sorted copy of `s`: an ordered permutation of it. */
  function Sorted(s: seq<int>, reverse: bool): (r: seq<int>)
    ensures InOrder(r, reverse)
    ensures multiset(r) == multiset(s)
    ensures |r| == |s|
  {
    if s == [] then
      []
    else
      assert s == [s[0]] + s[1..];
      var r := Insert(s[0], Sorted(s[1..], reverse), reverse);
      assert |r| == |multiset(r)| == |multiset(s)| == |s|;
      r
  }

  /** Two ordered lists holding the same elements are equal. */
  lemma {:induction false} SortedUnique(a: seq<int>, b: seq<int>, reverse: bool)
    requires InOrder(a, reverse) && InOrder(b, reverse)
    requires multiset(a) == multiset(b)
    ensures a == b
    decreases |a|
  {
    assert |a| == |multiset(a)| == |multiset(b)| == |b|;
    if a != [] {
      assert a[0] in multiset(b);
      var k :| 0 <= k < |b| && b[k] == a[0];
      assert b[0] in multiset(a);
      var m :| 0 <= m < |a| && a[m] == b[0];
      assert Before(b[0], b[k], reverse) || k == 0;
      assert Before(a[0], a[m], reverse) || m == 0;
      assert a[0] == b[0];
      assert a == [a[0]] + a[1..];
      assert b == [b[0]] + b[1..];
      assert multiset(a) == multiset{a[0]} + multiset(a[1..]);
      assert multiset(b) == multiset{b[0]} + multiset(b[1..]);
      assert multiset(a[1..]) == multiset(a) - multiset{a[0]};
      assert multiset(b[1..]) == multiset(b) - multiset{b[0]};
      InOrderTail(a, reverse);
      InOrderTail(b, reverse);
      SortedUnique(a[1..], b[1..], reverse);
    }
  }

  lemma InOrderTail(s: seq<int>, reverse: bool)
    requires s != [] && InOrder(s, reverse)
    ensures InOrder(s[1..], reverse)
  {
  }

  /** Sorting forgets the order of its input. */
  lemma SortedOfPermutation(s: seq<int>, t: seq<int>, reverse: bool)
    requires multiset(s) == multiset(t)
    ensures Sorted(s, reverse) == Sorted(t, reverse)
  {
    SortedUnique(Sorted(s, reverse), Sorted(t, reverse), reverse);
  }

  /** An element at least as late as every other one is the last in the
      ascending sort. */
  lemma SortedAscWithLatest(s: seq<int>, d: int)
    requires forall y :: y in s ==> y <= d
    ensures Sorted(s + [d], false) == Sorted(s, false) + [d]
  {
    var asc := Sorted(s, false);
    assert InOrder(asc + [d], false) by {
      forall i, j | 0 <= i < j < |asc| + 1 ensures Before((asc + [d])[i], (asc + [d])[j], false) {
        if j == |asc| {
          assert asc[i] in multiset(s);
          assert asc[i] in s;
        } else {
          assert (asc + [d])[i] == asc[i] && (asc + [d])[j] == asc[j];
        }
      }
    }
    assert multiset(asc + [d]) == multiset(s + [d]);
    SortedUnique(Sorted(s + [d], false), asc + [d], false);
  }

  /** An element at least as late as every other one is the first in the
      descending sort. */
  lemma SortedDescWithLatest(s: seq<int>, d: int)
    requires forall y :: y in s ==> y <= d
    ensures Sorted(s + [d], true) == [d] + Sorted(s, true)
  {
    var desc := Sorted(s, true);
    assert InOrder([d] + desc, true) by {
      forall i, j | 0 <= i < j < |desc| + 1 ensures Before(([d] + desc)[i], ([d] + desc)[j], true) {
        if i == 0 {
          assert desc[j - 1] in multiset(s);
          assert desc[j - 1] in s;
        } else {
          assert ([d] + desc)[i] == desc[i - 1] && ([d] + desc)[j] == desc[j - 1];
        }
      }
    }
    assert multiset([d] + desc) == multiset(s + [d]);
    SortedUnique(Sorted(s + [d], true), [d] + desc, true);
  }
}
