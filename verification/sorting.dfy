/**
  Python's `sorted(xs, key=lambda x: -k(x))` and `list.sort` with the same
  key: a stable sort into descending order of `k`. Items with equal keys
  keep their input order. Keys are real numbers; integer keys are
  converted.
 */
module Sorting {

  /** Keys never increase from left to right. */
  predicate NonIncreasing<T>(s: seq<T>, key: T -> real)
  {
    forall i, j :: 0 <= i < j < |s| ==> key(s[i]) >= key(s[j])
  }

  /** The items of `s` whose key is `v`, in their order in `s`. A sort is
      stable exactly when it keeps every such subsequence. */
  function WithKey<T>(s: seq<T>, key: T -> real, v: real): seq<T>
  {
    if s == [] then []
    else Keep(s[0], key, v) + WithKey(s[1..], key, v)
  }

  /** `[x]` when `x`'s key is `v`, and `[]` otherwise. */
  function Keep<T>(x: T, key: T -> real, v: real): seq<T>
  {
    if key(x) == v then [x] else []
  }

  lemma {:induction false} WithKeyConcat<T>(a: seq<T>, b: seq<T>, key: T -> real, v: real)
    ensures WithKey(a + b, key, v) == WithKey(a, key, v) + WithKey(b, key, v)
  {
    if a == [] {
      assert a + b == b;
    } else {
      assert (a + b)[0] == a[0] && (a + b)[1..] == a[1..] + b;
      WithKeyConcat(a[1..], b, key, v);
    }
  }

  lemma {:induction false} WithKeyMissing<T>(s: seq<T>, key: T -> real, v: real)
    requires forall i :: 0 <= i < |s| ==> key(s[i]) != v
    ensures WithKey(s, key, v) == []
  {
    if s != [] {
      assert forall i :: 0 <= i < |s| - 1 ==> s[1..][i] == s[i + 1];
      WithKeyMissing(s[1..], key, v);
    }
  }

  /** Places `x` after every item whose key is at least `x`'s. */
  function Insert<T>(x: T, s: seq<T>, key: T -> real): seq<T>
  {
    if s == [] then [x]
    else if key(s[0]) >= key(x) then [s[0]] + Insert(x, s[1..], key)
    else [x] + s
  }

  /** Inserting adds `x` to the items and nothing else. */
  lemma {:induction false} InsertCount<T>(x: T, s: seq<T>, key: T -> real)
    ensures multiset(Insert(x, s, key)) == multiset(s) + multiset{x}
    ensures |Insert(x, s, key)| == |s| + 1
  {
    if s != [] && key(s[0]) >= key(x) {
      InsertCount(x, s[1..], key);
      assert s == [s[0]] + s[1..];
    }
  }

  /** A bound on every key of `s` and on `x` bounds every key after inserting. */
  lemma {:induction false} InsertBounded<T>(x: T, s: seq<T>, key: T -> real, b: real)
    requires key(x) <= b
    requires forall i :: 0 <= i < |s| ==> key(s[i]) <= b
    ensures forall i :: 0 <= i < |Insert(x, s, key)| ==> key(Insert(x, s, key)[i]) <= b
  {
    if s != [] && key(s[0]) >= key(x) {
      assert forall i :: 0 <= i < |s| - 1 ==> s[1..][i] == s[i + 1];
      InsertBounded(x, s[1..], key, b);
    }
  }

  lemma {:induction false} InsertSorted<T>(x: T, s: seq<T>, key: T -> real)
    requires NonIncreasing(s, key)
    ensures NonIncreasing(Insert(x, s, key), key)
  {
    if s != [] {
      var r := Insert(x, s, key);
      if key(s[0]) >= key(x) {
        var rest := s[1..];
        assert forall i :: 0 <= i < |rest| ==> rest[i] == s[i + 1];
        InsertSorted(x, rest, key);
        InsertBounded(x, rest, key, key(s[0]));
        var t := Insert(x, rest, key);
        assert r == [s[0]] + t;
        forall i, j | 0 <= i < j < |r|
          ensures key(r[i]) >= key(r[j])
        {
          assert r[j] == t[j - 1];
          if i > 0 {
            assert r[i] == t[i - 1];
          }
        }
      } else {
        assert r == [x] + s;
        forall i, j | 0 <= i < j < |r|
          ensures key(r[i]) >= key(r[j])
        {
          assert r[j] == s[j - 1];
          if i > 0 {
            assert r[i] == s[i - 1];
          } else {
            assert key(s[0]) >= key(s[j - 1]);
          }
        }
      }
    }
  }

  lemma NonIncreasingTail<T>(s: seq<T>, key: T -> real)
    requires s != [] && NonIncreasing(s, key)
    ensures NonIncreasing(s[1..], key)
    ensures forall i :: 0 <= i < |s| ==> key(s[i]) <= key(s[0])
  {
    assert forall i :: 0 <= i < |s| - 1 ==> s[1..][i] == s[i + 1];
  }

  lemma WithKeyCons<T>(x: T, s: seq<T>, key: T -> real, v: real)
    ensures WithKey([x] + s, key, v) == Keep(x, key, v) + WithKey(s, key, v)
  {
    assert ([x] + s)[0] == x && ([x] + s)[1..] == s;
  }

  lemma WithKeyOne<T>(x: T, key: T -> real, v: real)
    ensures WithKey([x], key, v) == Keep(x, key, v)
  {
    WithKeyCons(x, [], key, v);
    assert [x] + [] == [x];
  }

  /** Inserting `x` adds it after the items that share its key. */
  lemma {:induction false} InsertWithKey<T>(x: T, s: seq<T>, key: T -> real, v: real)
    requires NonIncreasing(s, key)
    ensures WithKey(Insert(x, s, key), key, v) == WithKey(s, key, v) + Keep(x, key, v)
  {
    if s == [] {
      WithKeyOne(x, key, v);
    } else if key(s[0]) >= key(x) {
      NonIncreasingTail(s, key);
      InsertWithKey(x, s[1..], key, v);
      WithKeyCons(s[0], Insert(x, s[1..], key), key, v);
      WithKeyCons(s[0], s[1..], key, v);
      assert [s[0]] + s[1..] == s;
    } else {
      WithKeyCons(x, s, key, v);
      if key(x) == v {
        NonIncreasingTail(s, key);
        WithKeyMissing(s, key, v);
      }
    }
  }

  /** `sorted(s, key=lambda x: -key(x))`, as insertion sort. */
  function SortDesc<T>(s: seq<T>, key: T -> real): (r: seq<T>)
    ensures NonIncreasing(r, key)
    ensures multiset(r) == multiset(s)
    ensures |r| == |s|
  {
    if s == [] then []
    else
      var n := |s| - 1;
      var rest := SortDesc(s[..n], key);
      InsertSorted(s[n], rest, key);
      InsertCount(s[n], rest, key);
      assert s == s[..n] + [s[n]];
      Insert(s[n], rest, key)
  }

  /** The sort is stable: items with equal keys keep their relative order. */
  lemma {:induction false} SortDescStable<T>(s: seq<T>, key: T -> real, v: real)
    ensures WithKey(SortDesc(s, key), key, v) == WithKey(s, key, v)
  {
    if s != [] {
      var n := |s| - 1;
      var rest := SortDesc(s[..n], key);
      assert SortDesc(s, key) == Insert(s[n], rest, key);
      SortDescStable(s[..n], key, v);
      InsertWithKey(s[n], rest, key, v);
      WithKeyConcat(s[..n], [s[n]], key, v);
      WithKeyOne(s[n], key, v);
      assert s[..n] + [s[n]] == s;
    }
  }

  /** `SortDescStable` for every key value at once. */
  lemma SortDescStableAll<T>(s: seq<T>, key: T -> real)
    ensures forall v :: WithKey(SortDesc(s, key), key, v) == WithKey(s, key, v)
  {
    forall v
      ensures WithKey(SortDesc(s, key), key, v) == WithKey(s, key, v)
    {
      SortDescStable(s, key, v);
    }
  }

  lemma {:induction false} InsertAtEnd<T>(x: T, s: seq<T>, key: T -> real)
    requires forall i :: 0 <= i < |s| ==> key(s[i]) >= key(x)
    ensures Insert(x, s, key) == s + [x]
  {
    if s != [] {
      InsertAtEnd(x, s[1..], key);
      assert [s[0]] + (s[1..] + [x]) == s + [x];
    }
  }

  /** Sorting an already ordered sequence changes nothing. */
  lemma {:induction false} SortedIsFixed<T>(s: seq<T>, key: T -> real)
    requires NonIncreasing(s, key)
    ensures SortDesc(s, key) == s
  {
    if s != [] {
      var n := |s| - 1;
      assert NonIncreasing(s[..n], key);
      SortedIsFixed(s[..n], key);
      InsertAtEnd(s[n], s[..n], key);
      assert s[..n] + [s[n]] == s;
    }
  }

  /** `sum(f(x) for x in s)` on exact reals. */
  function Sum<T>(s: seq<T>, f: T -> real): real
  {
    if s == [] then 0.0 else Sum(s[..|s| - 1], f) + f(s[|s| - 1])
  }

  lemma {:induction false} SumConcat<T>(a: seq<T>, b: seq<T>, f: T -> real)
    ensures Sum(a + b, f) == Sum(a, f) + Sum(b, f)
  {
    if b != [] {
      var n := |b| - 1;
      assert (a + b)[..|a + b| - 1] == a + b[..n];
      SumConcat(a, b[..n], f);
    } else {
      assert a + b == a;
    }
  }

  /** A sum does not depend on the order of its terms. */
  lemma {:induction false} SumPermutation<T>(a: seq<T>, b: seq<T>, f: T -> real)
    requires multiset(a) == multiset(b)
    ensures Sum(a, f) == Sum(b, f)
  {
    if a == [] {
      assert |b| == |multiset(b)| == 0;
    } else {
      var n := |a| - 1;
      var x := a[n];
      assert a == a[..n] + [x];
      assert x in multiset(b);
      var i :| 0 <= i < |b| && b[i] == x;
      var b' := b[..i] + b[i + 1..];
      assert b == b[..i] + [x] + b[i + 1..];
      assert multiset(b') == multiset(b) - multiset{x} by {
        assert multiset(b) == multiset(b[..i]) + multiset{x} + multiset(b[i + 1..]);
      }
      assert multiset(a[..n]) == multiset(a) - multiset{x};
      SumPermutation(a[..n], b', f);
      SumConcat(b[..i] + [x], b[i + 1..], f);
      SumConcat(b[..i], [x], f);
      SumConcat(b[..i], b[i + 1..], f);
    }
  }

  /** Sorting keeps the sum of any quantity over the items. */
  lemma SortKeepsSum<T>(s: seq<T>, key: T -> real, f: T -> real)
    ensures Sum(SortDesc(s, key), f) == Sum(s, f)
  {
    SumPermutation(SortDesc(s, key), s, f);
  }

  /** `[f(x) for x in s]`. */
  function Image<T, U>(s: seq<T>, f: T -> U): (r: seq<U>)
    ensures |r| == |s|
    ensures forall i :: 0 <= i < |s| ==> r[i] == f(s[i])
  {
    if s == [] then [] else Image(s[..|s| - 1], f) + [f(s[|s| - 1])]
  }

  lemma ImageConcat<T, U>(a: seq<T>, b: seq<T>, f: T -> U)
    ensures Image(a + b, f) == Image(a, f) + Image(b, f)
  {
  }

  /** Reordering the items reorders their images the same way. */
  lemma {:induction false} ImagePermutation<T, U>(a: seq<T>, b: seq<T>, f: T -> U)
    requires multiset(a) == multiset(b)
    ensures multiset(Image(a, f)) == multiset(Image(b, f))
  {
    if a == [] {
      assert |b| == |multiset(b)| == 0;
    } else {
      var n := |a| - 1;
      var x := a[n];
      assert a == a[..n] + [x];
      assert x in multiset(b);
      var i :| 0 <= i < |b| && b[i] == x;
      var b' := b[..i] + b[i + 1..];
      assert b == b[..i] + [x] + b[i + 1..];
      assert multiset(b') == multiset(b) - multiset{x} by {
        assert multiset(b) == multiset(b[..i]) + multiset{x} + multiset(b[i + 1..]);
      }
      assert multiset(a[..n]) == multiset(a) - multiset{x};
      ImagePermutation(a[..n], b', f);
      ImageConcat(b[..i] + [x], b[i + 1..], f);
      ImageConcat(b[..i], [x], f);
      ImageConcat(b[..i], b[i + 1..], f);
      ImageConcat(a[..n], [x], f);
    }
  }
}
