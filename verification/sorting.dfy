/**
 Python's `sorted`, as the bot calls it: ascending by a string key
 (`key=itemgetter('iid')`, `key=itemgetter(0)`), and descending by an integer
 value with `reverse=True`, which keeps equal entries in their original order.
 Both are insertion sorts, which are stable.
 */
module Sorting {
  import opened Strings

  /** Every pair of elements is in ascending key order. */
  predicate SortedByKey<T>(xs: seq<T>, key: T -> string)
  {
    forall i, j :: 0 <= i < j < |xs| ==> StrLe(key(xs[i]), key(xs[j]))
  }

  /** Inserts `x` before the first element whose key is larger, so that `x`
      follows the elements it ties with. */
  function InsertByKey<T>(x: T, xs: seq<T>, key: T -> string): seq<T>
  {
    if xs == [] then [x]
    else if StrLt(key(x), key(xs[0])) then [x] + xs
    else [xs[0]] + InsertByKey(x, xs[1..], key)
  }

  lemma {:induction false} InsertByKeyPermutes<T>(x: T, xs: seq<T>, key: T -> string)
    ensures multiset(InsertByKey(x, xs, key)) == multiset(xs) + multiset{x}
  {
    if xs != [] && !StrLt(key(x), key(xs[0])) {
      InsertByKeyPermutes(x, xs[1..], key);
      assert xs == [xs[0]] + xs[1..];
    }
  }

  lemma {:induction false} InsertByKeySorted<T>(x: T, xs: seq<T>, key: T -> string)
    requires SortedByKey(xs, key)
    ensures SortedByKey(InsertByKey(x, xs, key), key)
  {
    if xs == [] {
    } else if StrLt(key(x), key(xs[0])) {
      forall j | 0 <= j < |xs|
        ensures StrLe(key(x), key(xs[j]))
      {
        if j > 0 {
          StrLeTransitive(key(x), key(xs[0]), key(xs[j]));
        }
      }
    } else {
      var rest := InsertByKey(x, xs[1..], key);
      InsertByKeySorted(x, xs[1..], key);
      InsertByKeyPermutes(x, xs[1..], key);
      StrLeTotal(key(x), key(xs[0]));
      StrLeReflexive(key(x));
      forall j | 0 <= j < |rest|
        ensures StrLe(key(xs[0]), key(rest[j]))
      {
        assert rest[j] in multiset(rest);
        if rest[j] != x {
          assert rest[j] in multiset(xs[1..]);
          var m :| 0 <= m < |xs[1..]| && xs[1..][m] == rest[j];
          assert xs[m + 1] == rest[j];
        }
      }
    }
  }

  /** `sorted(xs, key=key)`: a permutation of `xs` in ascending key order, and
      stable: the elements of any one key keep their relative order. */
  function SortByKey<T>(xs: seq<T>, key: T -> string): (r: seq<T>)
    ensures multiset(r) == multiset(xs)
    ensures SortedByKey(r, key)
    ensures forall k :: WithKey(r, key, k) == WithKey(xs, key, k)
  {
    if xs == [] then []
    else
      var sortedInit := SortByKey(xs[..|xs| - 1], key);
      InsertLastByKey(xs, sortedInit, key);
      InsertByKey(xs[|xs| - 1], sortedInit, key)
  }

  /** Inserting the last element into the sorted prefix sorts the whole list. */
  lemma InsertLastByKey<T>(xs: seq<T>, sortedInit: seq<T>, key: T -> string)
    requires xs != []
    requires multiset(sortedInit) == multiset(xs[..|xs| - 1])
    requires SortedByKey(sortedInit, key)
    requires forall k :: WithKey(sortedInit, key, k) == WithKey(xs[..|xs| - 1], key, k)
    ensures multiset(InsertByKey(xs[|xs| - 1], sortedInit, key)) == multiset(xs)
    ensures SortedByKey(InsertByKey(xs[|xs| - 1], sortedInit, key), key)
    ensures forall k :: WithKey(InsertByKey(xs[|xs| - 1], sortedInit, key), key, k) == WithKey(xs, key, k)
  {
    hide WithKey, InsertByKey;
    var init := xs[..|xs| - 1];
    var last := xs[|xs| - 1];
    assert xs == init + [last];
    InsertByKeyPermutes(last, sortedInit, key);
    InsertByKeySorted(last, sortedInit, key);
    forall k
      ensures WithKey(InsertByKey(last, sortedInit, key), key, k) == WithKey(init + [last], key, k)
    {
      InsertByKeyStable(last, sortedInit, key, k);
      WithKeyAppend(init, [last], key, k);
      WithKeyCons(last, [], key, k);
      assert [last] + [] == [last];
      WithKeyEmpty(key, k);
    }
  }

  /** The elements of `xs` whose key is exactly `k`, in their order in `xs`. */
  function WithKey<T>(xs: seq<T>, key: T -> string, k: string): seq<T>
  {
    if xs == [] then []
    else (if key(xs[0]) == k then [xs[0]] else []) + WithKey(xs[1..], key, k)
  }

  lemma WithKeyEmpty<T>(key: T -> string, k: string)
    ensures WithKey([], key, k) == []
  {
  }

  lemma WithKeyCons<T>(y: T, ys: seq<T>, key: T -> string, k: string)
    ensures WithKey([y] + ys, key, k) == (if key(y) == k then [y] else []) + WithKey(ys, key, k)
  {
    assert ([y] + ys)[0] == y;
    assert ([y] + ys)[1..] == ys;
  }

  lemma {:induction false} WithKeyAppend<T>(a: seq<T>, b: seq<T>, key: T -> string, k: string)
    ensures WithKey(a + b, key, k) == WithKey(a, key, k) + WithKey(b, key, k)
  {
    if a == [] {
      assert a + b == b;
    } else {
      var head := if key(a[0]) == k then [a[0]] else [];
      assert (a + b)[0] == a[0];
      assert (a + b)[1..] == a[1..] + b;
      assert WithKey(a + b, key, k) == head + WithKey(a[1..] + b, key, k);
      WithKeyAppend(a[1..], b, key, k);
      assert WithKey(a, key, k) == head + WithKey(a[1..], key, k);
    }
  }

  /** An ascending list headed by a key above `k` holds no element of key `k`. */
  lemma {:induction false} NoneBelow<T>(xs: seq<T>, key: T -> string, k: string)
    requires SortedByKey(xs, key)
    requires xs != [] && StrLt(k, key(xs[0]))
    ensures WithKey(xs, key, k) == []
  {
    if |xs| > 1 {
      StrLeTransitive(k, key(xs[0]), key(xs[1]));
      if key(xs[1]) == k {
        StrLeAntisymmetric(k, key(xs[0]));
      }
      NoneBelow(xs[1..], key, k);
    }
  }

  lemma InsertByKeyUnfold<T>(x: T, xs: seq<T>, key: T -> string)
    ensures InsertByKey(x, xs, key) ==
      if xs == [] then [x]
      else if StrLt(key(x), key(xs[0])) then [x] + xs
      else [xs[0]] + InsertByKey(x, xs[1..], key)
  {
  }

  /** The inserted element lands after every element it ties with. */
  lemma {:induction false} InsertByKeyStable<T>(x: T, xs: seq<T>, key: T -> string, k: string)
    requires SortedByKey(xs, key)
    ensures WithKey(InsertByKey(x, xs, key), key, k) == WithKey(xs, key, k) + (if key(x) == k then [x] else [])
  {
    hide InsertByKey, WithKey;
    var tail := if key(x) == k then [x] else [];
    InsertByKeyUnfold(x, xs, key);
    if xs == [] {
      WithKeyCons(x, [], key, k);
      assert [x] + [] == [x];
      WithKeyEmpty(key, k);
    } else if StrLt(key(x), key(xs[0])) {
      WithKeyCons(x, xs, key, k);
      if key(x) == k {
        NoneBelow(xs, key, k);
      }
    } else {
      var rest := InsertByKey(x, xs[1..], key);
      var head := if key(xs[0]) == k then [xs[0]] else [];
      assert SortedByKey(xs[1..], key);
      InsertByKeyStable(x, xs[1..], key, k);
      WithKeyCons(xs[0], rest, key, k);
      WithKeyCons(xs[0], xs[1..], key, k);
      assert [xs[0]] + xs[1..] == xs;
      assert head + (WithKey(xs[1..], key, k) + tail) == (head + WithKey(xs[1..], key, k)) + tail;
    }
  }

  /** The entries of `xs` whose value is exactly `v`, in their order in `xs`. */
  function WithValue(xs: seq<(string, int)>, v: int): seq<(string, int)>
  {
    if xs == [] then []
    else (if xs[0].1 == v then [xs[0]] else []) + WithValue(xs[1..], v)
  }

  lemma {:induction false} WithValueAppend(a: seq<(string, int)>, b: seq<(string, int)>, v: int)
    ensures WithValue(a + b, v) == WithValue(a, v) + WithValue(b, v)
  {
    if a == [] {
      assert a + b == b;
    } else {
      var head := if a[0].1 == v then [a[0]] else [];
      assert (a + b)[0] == a[0];
      assert (a + b)[1..] == a[1..] + b;
      assert WithValue(a + b, v) == head + WithValue(a[1..] + b, v);
      WithValueAppend(a[1..], b, v);
      assert WithValue(a, v) == head + WithValue(a[1..], v);
    }
  }

  /** Every pair of entries is in descending value order. */
  predicate DescendingByValue(xs: seq<(string, int)>)
  {
    forall i, j :: 0 <= i < j < |xs| ==> xs[i].1 >= xs[j].1
  }

  /** Inserts `x` after every entry whose value is at least `x`'s, so that `x`
      follows the entries it ties with. */
  function InsertDescending(x: (string, int), xs: seq<(string, int)>): seq<(string, int)>
  {
    if xs == [] then [x]
    else if xs[0].1 >= x.1 then [xs[0]] + InsertDescending(x, xs[1..])
    else [x] + xs
  }

  lemma {:induction false} InsertDescendingPermutes(x: (string, int), xs: seq<(string, int)>)
    ensures multiset(InsertDescending(x, xs)) == multiset(xs) + multiset{x}
  {
    if xs != [] && xs[0].1 >= x.1 {
      InsertDescendingPermutes(x, xs[1..]);
      assert InsertDescending(x, xs) == [xs[0]] + InsertDescending(x, xs[1..]);
      assert xs == [xs[0]] + xs[1..];
    }
  }

  lemma {:induction false} InsertDescendingSorted(x: (string, int), xs: seq<(string, int)>)
    requires DescendingByValue(xs)
    ensures DescendingByValue(InsertDescending(x, xs))
  {
    if xs != [] && xs[0].1 >= x.1 {
      var rest := InsertDescending(x, xs[1..]);
      assert InsertDescending(x, xs) == [xs[0]] + rest;
      InsertDescendingSorted(x, xs[1..]);
      InsertDescendingPermutes(x, xs[1..]);
      forall j | 0 <= j < |rest|
        ensures xs[0].1 >= rest[j].1
      {
        assert rest[j] in multiset(rest);
        if rest[j] != x {
          assert rest[j] in multiset(xs[1..]);
          var m :| 0 <= m < |xs[1..]| && xs[1..][m] == rest[j];
          assert xs[m + 1] == rest[j];
        }
      }
    }
  }

  /** A descending list headed by a value below `v` holds no entry of value `v`. */
  lemma {:induction false} NoneAbove(xs: seq<(string, int)>, v: int)
    requires DescendingByValue(xs)
    requires xs != [] && xs[0].1 < v
    ensures WithValue(xs, v) == []
  {
    if |xs| > 1 {
      NoneAbove(xs[1..], v);
    }
  }

  /** The inserted entry lands after every entry it ties with. */
  lemma {:induction false} InsertDescendingStable(x: (string, int), xs: seq<(string, int)>, v: int)
    requires DescendingByValue(xs)
    ensures WithValue(InsertDescending(x, xs), v) == WithValue(xs, v) + (if x.1 == v then [x] else [])
  {
    hide InsertDescending, WithValue;
    var tail := if x.1 == v then [x] else [];
    var r := InsertDescending(x, xs);
    InsertDescendingUnfold(x, xs);
    if xs == [] {
      WithValueOfOne(x, v);
      WithValueEmpty(v);
    } else if xs[0].1 >= x.1 {
      var rest := InsertDescending(x, xs[1..]);
      var head := if xs[0].1 == v then [xs[0]] else [];
      assert DescendingByValue(xs[1..]);
      InsertDescendingStable(x, xs[1..], v);
      WithValueCons(xs[0], rest, v);
      WithValueCons(xs[0], xs[1..], v);
      assert [xs[0]] + xs[1..] == xs;
      assert head + (WithValue(xs[1..], v) + tail) == (head + WithValue(xs[1..], v)) + tail;
    } else {
      WithValueCons(x, xs, v);
      if x.1 == v {
        NoneAbove(xs, v);
      }
    }
  }

  lemma InsertDescendingUnfold(x: (string, int), xs: seq<(string, int)>)
    ensures InsertDescending(x, xs) ==
      if xs == [] then [x]
      else if xs[0].1 >= x.1 then [xs[0]] + InsertDescending(x, xs[1..])
      else [x] + xs
  {
  }

  lemma WithValueEmpty(v: int)
    ensures WithValue([], v) == []
  {
  }

  lemma WithValueCons(y: (string, int), ys: seq<(string, int)>, v: int)
    ensures WithValue([y] + ys, v) == (if y.1 == v then [y] else []) + WithValue(ys, v)
  {
    assert ([y] + ys)[0] == y;
    assert ([y] + ys)[1..] == ys;
  }

  /** `sorted(xs, key=itemgetter(1), reverse=True)`: a permutation of `xs`,
      descending by value, and stable: the entries of any one value keep their
      relative order. */
  function SortDescending(xs: seq<(string, int)>): (r: seq<(string, int)>)
    ensures multiset(r) == multiset(xs)
    ensures DescendingByValue(r)
    ensures forall v :: WithValue(r, v) == WithValue(xs, v)
  {
    if xs == [] then []
    else
      var sortedInit := SortDescending(xs[..|xs| - 1]);
      InsertLast(xs, sortedInit);
      InsertDescending(xs[|xs| - 1], sortedInit)
  }

  /** Inserting the last entry into the sorted prefix sorts the whole list. */
  lemma InsertLast(xs: seq<(string, int)>, sortedInit: seq<(string, int)>)
    requires xs != []
    requires multiset(sortedInit) == multiset(xs[..|xs| - 1])
    requires DescendingByValue(sortedInit)
    requires forall v :: WithValue(sortedInit, v) == WithValue(xs[..|xs| - 1], v)
    ensures multiset(InsertDescending(xs[|xs| - 1], sortedInit)) == multiset(xs)
    ensures DescendingByValue(InsertDescending(xs[|xs| - 1], sortedInit))
    ensures forall v :: WithValue(InsertDescending(xs[|xs| - 1], sortedInit), v) == WithValue(xs, v)
  {
    hide WithValue, InsertDescending;
    var init := xs[..|xs| - 1];
    var last := xs[|xs| - 1];
    assert xs == init + [last];
    InsertDescendingPermutes(last, sortedInit);
    InsertDescendingSorted(last, sortedInit);
    forall v
      ensures WithValue(InsertDescending(last, sortedInit), v) == WithValue(init + [last], v)
    {
      InsertDescendingStable(last, sortedInit, v);
      WithValueAppend(init, [last], v);
      WithValueOfOne(last, v);
    }
  }

  lemma WithValueOfOne(x: (string, int), v: int)
    ensures WithValue([x], v) == if x.1 == v then [x] else []
  {
    assert [x][1..] == [];
  }
}
