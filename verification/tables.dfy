/**
  Python dictionaries as the collector uses them: keyed by strings, iterated
  in first-insertion order. A table keeps that order beside the entries.
 */
module Tables {

  datatype Table<V> = Table(order: seq<string>, at: map<string, V>)

  predicate Distinct(keys: seq<string>)
  {
    forall i, j :: 0 <= i < j < |keys| ==> keys[i] != keys[j]
  }

  /** A key of a list without repeats is not among the keys before it. */
  lemma DistinctPrefix(keys: seq<string>, n: nat)
    requires Distinct(keys) && 0 < n <= |keys|
    ensures keys[n - 1] !in keys[..n - 1]
  {
    assert forall j :: 0 <= j < n - 1 ==> keys[..n - 1][j] == keys[j];
  }

  /** A key is among the first `n` exactly when it is among the first
      `n - 1` or is the `n`-th. */
  lemma InPrefix(keys: seq<string>, n: nat, d: string)
    requires 0 < n <= |keys|
    ensures d in keys[..n] <==> d in keys[..n - 1] || d == keys[n - 1]
  {
    assert keys[..n] == keys[..n - 1] + [keys[n - 1]];
  }

  /** The order lists every key exactly once. */
  predicate Valid<V>(t: Table<V>)
  {
    && Distinct(t.order)
    && (forall k :: k in t.at ==> k in t.order)
    && (forall k :: k in t.order ==> k in t.at)
  }

  function Empty<V>(): (r: Table<V>)
    ensures Valid(r) && r.at == map[]
  {
    Table([], map[])
  }

  /** `d[k] = v`: a new key goes to the end of the order, an existing key
      keeps its place. */
  function Put<V>(t: Table<V>, k: string, v: V): (r: Table<V>)
    ensures Valid(t) ==> Valid(r)
    ensures r.at == t.at[k := v]
    ensures k in t.at ==> r.order == t.order
    ensures k !in t.at ==> r.order == t.order + [k]
  {
    if k in t.at then Table(t.order, t.at[k := v])
    else Table(t.order + [k], t.at[k := v])
  }

  /** The sum of `f` over the entries named by `keys`. */
  function SumOver<V>(keys: seq<string>, at: map<string, V>, f: V -> int): int
    requires forall k :: k in keys ==> k in at
  {
    if keys == [] then 0 else f(at[keys[0]]) + SumOver(keys[1..], at, f)
  }

  /** Sums do not see entries outside `keys`. */
  lemma {:induction false} SumOverOutside<V>(keys: seq<string>, at: map<string, V>, k: string, v: V, f: V -> int)
    requires forall x :: x in keys ==> x in at
    requires k !in keys
    ensures SumOver(keys, at[k := v], f) == SumOver(keys, at, f)
  {
    if keys != [] {
      SumOverOutside(keys[1..], at, k, v, f);
    }
  }

  /** Appending a key adds its term. */
  lemma {:induction false} SumOverAppend<V>(keys: seq<string>, at: map<string, V>, k: string, f: V -> int)
    requires forall x :: x in keys ==> x in at
    requires k in at
    ensures SumOver(keys + [k], at, f) == SumOver(keys, at, f) + f(at[k])
  {
    if keys == [] {
      assert keys + [k] == [k];
    } else {
      assert (keys + [k])[1..] == keys[1..] + [k];
      SumOverAppend(keys[1..], at, k, f);
    }
  }

  /** Replacing one entry of distinct keys changes the sum by the difference. */
  lemma {:induction false} SumOverReplace<V>(keys: seq<string>, at: map<string, V>, k: string, v: V, f: V -> int)
    requires forall x :: x in keys ==> x in at
    requires Distinct(keys) && k in keys
    ensures SumOver(keys, at[k := v], f) == SumOver(keys, at, f) - f(at[k]) + f(v)
  {
    if keys[0] == k {
      assert k !in keys[1..] by {
        forall i | 0 <= i < |keys| - 1
          ensures keys[1..][i] != k
        {
          assert keys[1..][i] == keys[i + 1];
        }
      }
      SumOverOutside(keys[1..], at, k, v, f);
    } else {
      assert Distinct(keys[1..]) by {
        forall i, j | 0 <= i < j < |keys| - 1
          ensures keys[1..][i] != keys[1..][j]
        {
          assert keys[1..][i] == keys[i + 1] && keys[1..][j] == keys[j + 1];
        }
      }
      SumOverReplace(keys[1..], at, k, v, f);
    }
  }

  /** How `Put` moves a sum over the table. */
  lemma SumOverPut<V>(t: Table<V>, k: string, v: V, f: V -> int)
    requires Valid(t)
    ensures var r := Put(t, k, v);
      SumOver(r.order, r.at, f) == SumOver(t.order, t.at, f) - (if k in t.at then f(t.at[k]) else 0) + f(v)
  {
    if k in t.at {
      SumOverReplace(t.order, t.at, k, v, f);
    } else {
      SumOverAppend(t.order, t.at[k := v], k, f);
      SumOverOutside(t.order, t.at, k, v, f);
    }
  }
  /** The key order after writing `keys` in turn into a dictionary whose key
      order was `acc`: each key not yet present goes to the end. */
  function AppendNew(acc: seq<string>, keys: seq<string>): seq<string>
  {
    if keys == [] then acc
    else
      var r := AppendNew(acc, keys[..|keys| - 1]);
      var k := keys[|keys| - 1];
      if k in r then r else r + [k]
  }

  /** The key order of a dictionary filled from empty by writing `keys` in
      turn. */
  function InsertionOrder(keys: seq<string>): seq<string>
  {
    AppendNew([], keys)
  }

  /** The position of the first occurrence of `k` in `keys`, and `|keys|`
      when there is none. */
  function FirstIndex(keys: seq<string>, k: string): (i: nat)
    ensures i <= |keys|
    ensures i < |keys| <==> k in keys
    ensures i < |keys| ==> keys[i] == k
    ensures k !in keys[..i]
  {
    if keys == [] then 0
    else if keys[0] == k then 0
    else
      var i := FirstIndex(keys[1..], k);
      assert keys[..i + 1] == [keys[0]] + keys[1..][..i];
      i + 1
  }

  /** A key that already occurs keeps its first position when more keys
      follow. */
  lemma FirstIndexAppend(keys: seq<string>, more: seq<string>, k: string)
    requires k in keys
    ensures FirstIndex(keys + more, k) == FirstIndex(keys, k)
  {
    var i := FirstIndex(keys, k);
    assert (keys + more)[..i] == keys[..i];
    FirstIndexAt(keys + more, k, i);
  }

  /** A position holding `k` with no `k` before it is the first index. */
  lemma {:induction false} FirstIndexAt(keys: seq<string>, k: string, i: nat)
    requires i < |keys| && keys[i] == k && k !in keys[..i]
    ensures FirstIndex(keys, k) == i
  {
    if i > 0 {
      assert keys[0] == keys[..i][0];
      assert keys[1..][..i - 1] == keys[..i][1..];
      FirstIndexAt(keys[1..], k, i - 1);
    }
  }

  /** Writing keys keeps the earlier order as a prefix, adds exactly the new
      keys, and lists no key twice. */
  lemma {:induction false} AppendNewKeys(acc: seq<string>, keys: seq<string>)
    ensures var r := AppendNew(acc, keys);
      && |acc| <= |r| && r[..|acc|] == acc
      && (forall x :: x in r <==> x in acc || x in keys)
      && (Distinct(acc) ==> Distinct(r))
  {
    if keys != [] {
      var pre := keys[..|keys| - 1];
      AppendNewKeys(acc, pre);
      assert keys == pre + [keys[|keys| - 1]];
    }
  }

  /** Writing `a` and then `b` is writing `a + b`. */
  lemma {:induction false} AppendNewConcat(acc: seq<string>, a: seq<string>, b: seq<string>)
    ensures AppendNew(acc, a + b) == AppendNew(AppendNew(acc, a), b)
  {
    if b == [] {
      assert a + b == a;
    } else {
      var pre := b[..|b| - 1];
      AppendNewConcat(acc, a, pre);
      assert (a + b)[..|a + b| - 1] == a + pre;
    }
  }

  /** Inserting more keys into a dictionary filled with `before` leaves it
      ordered by first appearance in `before + more`. */
  lemma InsertionOrderExtend(before: seq<string>, more: seq<string>)
    ensures AppendNew(InsertionOrder(before), more) == InsertionOrder(before + more)
  {
    AppendNewConcat([], before, more);
  }

  /** Writing the keys of a dictionary in its order is writing the keys it
      was filled with. */
  lemma {:induction false} AppendNewInsertionOrder(acc: seq<string>, keys: seq<string>)
    ensures AppendNew(acc, InsertionOrder(keys)) == AppendNew(acc, keys)
  {
    if keys != [] {
      var pre := keys[..|keys| - 1];
      var k := keys[|keys| - 1];
      var o := InsertionOrder(pre);
      AppendNewInsertionOrder(acc, pre);
      AppendNewKeys([], pre);
      AppendNewKeys(acc, pre);
      if k in o {
        assert InsertionOrder(keys) == o;
      } else {
        assert InsertionOrder(keys) == o + [k];
        assert (o + [k])[..|o|] == o;
      }
    }
  }

  /** A dictionary filled by writing `keys` lists each written key once, in
      the order of first writes: one key precedes another exactly when it
      was first written earlier. */
  lemma {:induction false} InsertionOrderFirsts(keys: seq<string>)
    ensures var r := InsertionOrder(keys);
      && Distinct(r)
      && (forall x :: x in r <==> x in keys)
      && (forall i, j :: 0 <= i < |r| && 0 <= j < |r| ==>
            (i < j <==> FirstIndex(keys, r[i]) < FirstIndex(keys, r[j])))
  {
    var r := InsertionOrder(keys);
    AppendNewKeys([], keys);
    if keys != [] {
      var pre := keys[..|keys| - 1];
      var k := keys[|keys| - 1];
      var o := InsertionOrder(pre);
      InsertionOrderFirsts(pre);
      assert keys == pre + [k];
      forall x | x in o
        ensures FirstIndex(keys, x) == FirstIndex(pre, x) < |pre|
      {
        FirstIndexAppend(pre, [k], x);
      }
      if k !in o {
        assert r == o + [k];
        FirstIndexAt(keys, k, |pre|);
      }
    }
  }

  /** Writing the `n`-th key of `keys` into a dictionary filled by writing
      the first `n - 1` after `acc` gives the order of writing the first `n`
      after `acc`. */
  lemma PutAppendNew<V>(t: Table<V>, keys: seq<string>, n: nat, v: V, acc: seq<string>)
    requires Valid(t) && 0 < n <= |keys| && t.order == AppendNew(acc, keys[..n - 1])
    ensures Valid(Put(t, keys[n - 1], v)) && Put(t, keys[n - 1], v).order == AppendNew(acc, keys[..n])
  {
    PutOrder(t, keys[n - 1], v);
    AppendNewConcat(acc, keys[..n - 1], [keys[n - 1]]);
    assert keys[..n] == keys[..n - 1] + [keys[n - 1]];
  }

  /** Writing a key into a well-formed table appends it to the order when it
      is new. */
  lemma PutOrder<V>(t: Table<V>, k: string, v: V)
    requires Valid(t)
    ensures Put(t, k, v).order == AppendNew(t.order, [k])
  {
    assert [k][..0] == [];
  }
}
