/** Sequence operations the service gets from Python's built-ins: `list.index`,
    list comprehensions with a condition, and the stable `sorted(..., reverse=True)`. */
module Seqs {

  /** Python's `s.index(x)` when `x in s`, and `|s|` when it is not: the position of
      the first occurrence. */
  function IndexOf<T(==)>(s: seq<T>, x: T): (k: nat)
    ensures k <= |s|
    ensures k < |s| ==> s[k] == x
    ensures forall i :: 0 <= i < k ==> s[i] != x
    ensures k == |s| <==> x !in s
  {
    if s == [] then 0
    else if s[0] == x then 0
    else 1 + IndexOf(s[1..], x)
  }

  /** Appending never moves the first occurrence of something already present, and
      a new element is first found at the end. */
  lemma {:induction false} IndexOfAppend<T>(s: seq<T>, y: T, x: T)
    ensures IndexOf(s + [y], x) == if x in s then IndexOf(s, x) else if x == y then |s| else |s| + 1
  {
    if s != [] && s[0] != x {
      assert (s + [y])[1..] == s[1..] + [y];
      IndexOfAppend(s[1..], y, x);
    }
  }

  /** `a` is obtained from `b` by deleting elements: the order of what is kept is
      the order of `b`. */
  predicate IsSubsequence<T(==)>(a: seq<T>, b: seq<T>)
  {
    a == [] || (b != [] && ((a[0] == b[0] && IsSubsequence(a[1..], b[1..])) || IsSubsequence(a, b[1..])))
  }

  /** Python's `[x for x in s if p(x)]`. */
  function Filter<T>(s: seq<T>, p: T -> bool): (r: seq<T>)
    ensures |r| <= |s|
    ensures forall i :: 0 <= i < |r| ==> p(r[i])
  {
    if s == [] then []
    else if p(s[0]) then [s[0]] + Filter(s[1..], p)
    else Filter(s[1..], p)
  }

  /** The filter keeps every occurrence of a selected element and drops every
      occurrence of the others. */
  lemma {:induction false} FilterCount<T(!new)>(s: seq<T>, p: T -> bool)
    ensures forall x :: multiset(Filter(s, p))[x] == if p(x) then multiset(s)[x] else 0
  {
    if s != [] {
      FilterCount(s[1..], p);
      assert s == [s[0]] + s[1..];
    }
  }

  /** The filter keeps the order of the input. */
  lemma {:induction false} FilterIsSubsequence<T>(s: seq<T>, p: T -> bool)
    ensures IsSubsequence(Filter(s, p), s)
  {
    if s != [] {
      FilterIsSubsequence(s[1..], p);
      if p(s[0]) {
        assert Filter(s, p)[1..] == Filter(s[1..], p);
      }
    }
  }

  /** Two conditions that agree on every element of `s` select the same elements. */
  lemma {:induction false} FilterCongruent<T>(s: seq<T>, p: T -> bool, q: T -> bool)
    requires forall x :: x in s ==> p(x) == q(x)
    ensures Filter(s, p) == Filter(s, q)
  {
    if s != [] {
      FilterCongruent(s[1..], p, q);
    }
  }

  /** The filter of a concatenation is the concatenation of the filters. */
  lemma {:induction false} FilterAppend<T>(s: seq<T>, t: seq<T>, p: T -> bool)
    ensures Filter(s + t, p) == Filter(s, p) + Filter(t, p)
  {
    if s == [] {
      assert s + t == t;
    } else {
      assert (s + t)[0] == s[0];
      assert (s + t)[1..] == s[1..] + t;
      FilterAppend(s[1..], t, p);
    }
  }

  /** Every element of `r` has a key no smaller than every element after it. */
  predicate NonIncreasing<T>(r: seq<T>, key: T -> int)
  {
    forall i, j :: 0 <= i < j < |r| ==> key(r[i]) >= key(r[j])
  }

  /** The elements of `s` whose key is `c`, in the order of `s`. */
  function WithKey<T>(s: seq<T>, key: T -> int, c: int): seq<T>
  {
    Filter(s, (x: T) => key(x) == c)
  }

  /** Inserts `x` in front of the first element whose key is not larger than its own. */
  function InsertDesc<T>(x: T, s: seq<T>, key: T -> int): (r: seq<T>)
    ensures |r| == |s| + 1
    ensures multiset(r) == multiset(s) + multiset{x}
  {
    if s == [] || key(s[0]) <= key(x) then [x] + s
    else
      assert s == [s[0]] + s[1..];
      [s[0]] + InsertDesc(x, s[1..], key)
  }

  lemma {:induction false} InsertDescSorted<T>(x: T, s: seq<T>, key: T -> int)
    requires NonIncreasing(s, key)
    ensures NonIncreasing(InsertDesc(x, s, key), key)
  {
    var r := InsertDesc(x, s, key);
    if s == [] || key(s[0]) <= key(x) {
      forall i, j | 0 <= i < j < |r| ensures key(r[i]) >= key(r[j]) {
        if i > 0 { assert r[i] == s[i - 1]; }
        assert r[j] == s[j - 1];
      }
    } else {
      var t := InsertDesc(x, s[1..], key);
      assert NonIncreasing(s[1..], key) by {
        forall i, j | 0 <= i < j < |s[1..]| ensures key(s[1..][i]) >= key(s[1..][j]) {
          assert s[1..][i] == s[i + 1] && s[1..][j] == s[j + 1];
        }
      }
      InsertDescSorted(x, s[1..], key);
      assert r == [s[0]] + t;
      forall i, j | 0 <= i < j < |r| ensures key(r[i]) >= key(r[j]) {
        if i == 0 {
          // r[j] is x or an element of s[1..]
          assert r[j] == t[j - 1];
          assert r[j] in multiset(t);
          if r[j] != x {
            assert r[j] in multiset(s[1..]);
            var k :| 0 <= k < |s[1..]| && s[1..][k] == r[j];
            assert s[1..][k] == s[k + 1];
          }
        } else {
          assert r[i] == t[i - 1] && r[j] == t[j - 1];
        }
      }
    }
  }

  /** `x` lands in front of every element that has its key, so among those it comes first. */
  lemma {:induction false} InsertDescWithKey<T>(x: T, s: seq<T>, key: T -> int, c: int)
    ensures WithKey(InsertDesc(x, s, key), key, c) ==
            if key(x) == c then [x] + WithKey(s, key, c) else WithKey(s, key, c)
  {
    var r := InsertDesc(x, s, key);
    if s == [] || key(s[0]) <= key(x) {
      assert r[0] == x && r[1..] == s;
    } else {
      InsertDescWithKey(x, s[1..], key, c);
      assert r[0] == s[0] && r[1..] == InsertDesc(x, s[1..], key);
    }
  }

  /** Python's `sorted(s, key=key, reverse=True)`: ordered by non-increasing key, a
      permutation of the input, and stable, so that the elements sharing one key keep
      the order they had in `s`. */
  function SortDesc<T>(s: seq<T>, key: T -> int): (r: seq<T>)
    ensures |r| == |s|
    ensures multiset(r) == multiset(s)
    ensures NonIncreasing(r, key)
  {
    if s == [] then []
    else
      var rest := SortDesc(s[1..], key);
      InsertDescSorted(s[0], rest, key);
      assert s == [s[0]] + s[1..];
      InsertDesc(s[0], rest, key)
  }

  /** The sort is stable: for every key, the elements carrying it appear in the
      result in the order they had in the input. */
  lemma {:induction false} SortDescStable<T>(s: seq<T>, key: T -> int, c: int)
    ensures WithKey(SortDesc(s, key), key, c) == WithKey(s, key, c)
  {
    if s != [] {
      SortDescStable(s[1..], key, c);
      InsertDescWithKey(s[0], SortDesc(s[1..], key), key, c);
    }
  }

  /** Where the filter puts a selected element. */
  lemma {:induction false} FilterPosition<T>(s: seq<T>, p: T -> bool, j: nat) returns (k: nat)
    requires j < |s| && p(s[j])
    ensures k < |Filter(s, p)| && Filter(s, p)[k] == s[j]
  {
    if j == 0 {
      k := 0;
    } else {
      var m := FilterPosition(s[1..], p, j - 1);
      k := if p(s[0]) then m + 1 else m;
    }
  }

  /** Two selected elements keep their relative order in the filter. */
  lemma {:induction false} FilterKeepsPositions<T>(s: seq<T>, p: T -> bool, i: nat, j: nat) returns (i': nat, j': nat)
    requires i < j < |s| && p(s[i]) && p(s[j])
    ensures i' < j' < |Filter(s, p)| && Filter(s, p)[i'] == s[i] && Filter(s, p)[j'] == s[j]
  {
    if i == 0 {
      var k := FilterPosition(s[1..], p, j - 1);
      i', j' := 0, k + 1;
    } else {
      var a, b := FilterKeepsPositions(s[1..], p, i - 1, j - 1);
      if p(s[0]) {
        i', j' := a + 1, b + 1;
      } else {
        i', j' := a, b;
      }
    }
  }

  /** A relation that holds between every element and each later one still holds in
      the filter. */
  lemma {:induction false} FilterKeepsOrder<T(!new)>(s: seq<T>, p: T -> bool, before: (T, T) -> bool)
    requires forall i, j :: 0 <= i < j < |s| ==> before(s[i], s[j])
    ensures forall i, j :: 0 <= i < j < |Filter(s, p)| ==> before(Filter(s, p)[i], Filter(s, p)[j])
  {
    if s != [] {
      var rest := Filter(s[1..], p);
      assert forall i, j :: 0 <= i < j < |s[1..]| ==> before(s[1..][i], s[1..][j]) by {
        forall i, j | 0 <= i < j < |s[1..]| ensures before(s[1..][i], s[1..][j]) {
          assert s[1..][i] == s[i + 1] && s[1..][j] == s[j + 1];
        }
      }
      FilterKeepsOrder(s[1..], p, before);
      if p(s[0]) {
        FilterCount(s[1..], p);
        forall j | 0 <= j < |rest| ensures before(s[0], rest[j]) {
          assert multiset(rest)[rest[j]] > 0;
          var m :| 0 <= m < |s[1..]| && s[1..][m] == rest[j];
          assert s[m + 1] == rest[j];
        }
        var r := Filter(s, p);
        assert r == [s[0]] + rest;
        forall i, j | 0 <= i < j < |r| ensures before(r[i], r[j]) {
          assert r[j] == rest[j - 1];
          if i > 0 { assert r[i] == rest[i - 1]; }
        }
      }
    }
  }

  lemma WithKeyPositions<T>(s: seq<T>, key: T -> int, i: nat, j: nat) returns (i': nat, j': nat)
    requires i < j < |s| && key(s[i]) == key(s[j])
    ensures var w := WithKey(s, key, key(s[i]));
            i' < j' < |w| && w[i'] == s[i] && w[j'] == s[j]
  {
    i', j' := FilterKeepsPositions(s, (x: T) => key(x) == key(s[i]), i, j);
  }

  lemma WithKeyKeepsOrder<T(!new)>(s: seq<T>, key: T -> int, c: int, before: (T, T) -> bool)
    requires forall i, j :: 0 <= i < j < |s| ==> before(s[i], s[j])
    ensures var w := WithKey(s, key, c);
            forall i, j :: 0 <= i < j < |w| ==> before(w[i], w[j])
  {
    FilterKeepsOrder(s, (x: T) => key(x) == c, before);
  }
}
