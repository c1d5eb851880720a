/**
 A Python `dict` (and the `defaultdict(int)` used for kill counts) as an
 insertion-ordered list of key/value pairs. Python iterates a dict in insertion
 order and assignment to an existing key keeps its position, which the sorted
 listings of the bot depend on when two entries tie.
 */
module Dicts {
  import opened Wrappers

  type Dict<V> = seq<(string, V)>

  /** The keys, in iteration order. */
  function Keys<V>(d: Dict<V>): (ks: seq<string>)
    ensures |ks| == |d|
    ensures forall i :: 0 <= i < |d| ==> ks[i] == d[i].0
  {
    if d == [] then [] else [d[0].0] + Keys(d[1..])
  }

  /** A well-formed dict holds every key at most once. */
  predicate DistinctKeys<V>(d: Dict<V>)
  {
    forall i, j :: 0 <= i < j < |d| ==> d[i].0 != d[j].0
  }

  predicate HasKey<V>(d: Dict<V>, k: string)
  {
    k in Keys(d)
  }

  /** `d.get(k)`. */
  function Get<V>(d: Dict<V>, k: string): (r: Option<V>)
    ensures r.None? <==> !HasKey(d, k)
    ensures r.Some? ==> exists i :: 0 <= i < |d| && d[i] == (k, r.value)
  {
    if d == [] then None
    else if d[0].0 == k then Some(d[0].1)
    else
      assert forall i :: 1 <= i < |d| ==> d[i] == d[1..][i - 1];
      Get(d[1..], k)
  }

  /** `d[k]` on a `defaultdict(int)`: zero for a missing key. */
  function GetOrZero(d: Dict<int>, k: string): int
  {
    match Get(d, k)
    case Some(v) => v
    case None => 0
  }

  /** `d[k] = v`: overwrite in place when `k` is present, append otherwise. */
  function Put<V>(d: Dict<V>, k: string, v: V): (r: Dict<V>)
    ensures HasKey(d, k) ==> |r| == |d|
    ensures !HasKey(d, k) ==> r == d + [(k, v)]
    ensures Keys(r) == if HasKey(d, k) then Keys(d) else Keys(d) + [k]
  {
    if d == [] then [(k, v)]
    else if d[0].0 == k then
      KeysCons((k, v), d[1..]);
      KeysCons(d[0], d[1..]);
      assert d == [d[0]] + d[1..];
      [(k, v)] + d[1..]
    else
      var rest := Put(d[1..], k, v);
      KeysCons(d[0], d[1..]);
      KeysCons(d[0], rest);
      assert d == [d[0]] + d[1..];
      [d[0]] + rest
  }

  lemma KeysCons<V>(e: (string, V), d: Dict<V>)
    ensures Keys([e] + d) == [e.0] + Keys(d)
  {
    assert ([e] + d)[1..] == d;
  }

  /** `d[k] += n` on a `defaultdict(int)`. */
  function AddTo(d: Dict<int>, k: string, n: int): Dict<int>
  {
    Put(d, k, GetOrZero(d, k) + n)
  }

  /** The dict as a mathematical map (first occurrence wins, as `Get` does). */
  function ToMap<V>(d: Dict<V>): (m: map<string, V>)
    ensures forall k :: k in m <==> HasKey(d, k)
  {
    if d == [] then map[] else ToMap(d[1..])[d[0].0 := d[0].1]
  }

  /** `Get` answers exactly what the map view holds. */
  lemma {:induction false} GetAgreesWithMap<V>(d: Dict<V>, k: string)
    ensures Get(d, k) == if k in ToMap(d) then Some(ToMap(d)[k]) else None
  {
    if d != [] && d[0].0 != k {
      GetAgreesWithMap(d[1..], k);
    }
  }

  /** Assignment keeps the keys distinct. */
  lemma {:induction false} PutKeepsDistinct<V>(d: Dict<V>, k: string, v: V)
    ensures DistinctKeys(d) ==> DistinctKeys(Put(d, k, v))
  {
    if !DistinctKeys(d) {
      return;
    }
    var r := Put(d, k, v);
    assert Keys(r) == if HasKey(d, k) then Keys(d) else Keys(d) + [k];
    forall i, j | 0 <= i < j < |r|
      ensures r[i].0 != r[j].0
    {
      assert Keys(r)[i] == r[i].0 && Keys(r)[j] == r[j].0;
      if !HasKey(d, k) && j == |d| {
        assert Keys(r)[i] == d[i].0;
      } else {
        assert Keys(r)[i] == d[i].0 && Keys(r)[j] == d[j].0;
      }
    }
  }

  lemma UpdatesCommute<V>(m: map<string, V>, a: string, x: V, b: string, y: V)
    requires a != b
    ensures m[a := x][b := y] == m[b := y][a := x]
  {
  }

  /** Assignment acts on the map view as a map update: the one key changes,
      every other key keeps its value. */
  lemma {:induction false} PutIsMapUpdate<V>(d: Dict<V>, k: string, v: V)
    ensures ToMap(Put(d, k, v)) == ToMap(d)[k := v]
  {
    if d == [] {
    } else if d[0].0 == k {
      assert Put(d, k, v)[1..] == d[1..];
    } else {
      var r := Put(d, k, v);
      assert r[1..] == Put(d[1..], k, v);
      PutIsMapUpdate(d[1..], k, v);
      UpdatesCommute(ToMap(d[1..]), k, v, d[0].0, d[0].1);
    }
  }

  /** `d[k] += n` as seen through the map view. */
  lemma AddToIsMapUpdate(d: Dict<int>, k: string, n: int)
    ensures ToMap(AddTo(d, k, n)) == ToMap(d)[k := GetOrZero(d, k) + n]
    ensures GetOrZero(d, k) == if k in ToMap(d) then ToMap(d)[k] else 0
  {
    hide Put, ToMap, Get;
    var v := GetOrZero(d, k) + n;
    assert AddTo(d, k, n) == Put(d, k, v);
    PutIsMapUpdate(d, k, v);
    GetOrZeroOfMap(d, k);
  }

  /** `d[k]` on a `defaultdict(int)` reads the map view, zero when absent. */
  lemma GetOrZeroOfMap(d: Dict<int>, k: string)
    ensures GetOrZero(d, k) == if k in ToMap(d) then ToMap(d)[k] else 0
  {
    hide ToMap, Get;
    GetAgreesWithMap(d, k);
  }

  /** `d[p]` after `d[k] += n`. */
  lemma AddToScores(d: Dict<int>, k: string, n: int)
    ensures GetOrZero(AddTo(d, k, n), k) == GetOrZero(d, k) + n
    ensures forall p :: p != k ==> GetOrZero(AddTo(d, k, n), p) == GetOrZero(d, p)
  {
    var r := AddTo(d, k, n);
    AddToIsMapUpdate(d, k, n);
    GetAgreesWithMap(r, k);
    forall p | p != k
      ensures GetOrZero(r, p) == GetOrZero(d, p)
    {
      GetAgreesWithMap(r, p);
      GetAgreesWithMap(d, p);
    }
  }

  /** Assigning a key twice leaves only the second value, in the same place. */
  lemma {:induction false} PutTwice<V>(d: Dict<V>, k: string, v: V, w: V)
    ensures Put(Put(d, k, v), k, w) == Put(d, k, w)
  {
    if d != [] && d[0].0 != k {
      PutTwice(d[1..], k, v, w);
      assert Put(d, k, v)[1..] == Put(d[1..], k, v);
    }
  }

  /** Two increments of one key are one increment by their sum. */
  lemma AddToTwice(d: Dict<int>, k: string, a: int, b: int)
    ensures AddTo(AddTo(d, k, a), k, b) == AddTo(d, k, a + b)
  {
    hide Put, Get, ToMap, GetOrZero, AddTo;
    var v := GetOrZero(d, k) + a;
    var once := AddTo(d, k, a);
    AddToUnfold(d, k, a);
    AddToScores(d, k, a);
    AddToUnfold(once, k, b);
    AddToUnfold(d, k, a + b);
    PutTwice(d, k, v, v + b);
  }

  lemma AddToUnfold(d: Dict<int>, k: string, n: int)
    ensures AddTo(d, k, n) == Put(d, k, GetOrZero(d, k) + n)
  {
  }

  /** A permutation of a dict with distinct keys has distinct keys. */
  lemma DistinctKeysAfterPermutation<V>(t: Dict<V>, p: Dict<V>, i: int, j: int)
    requires DistinctKeys(t)
    requires multiset(p) == multiset(t)
    requires 0 <= i < j < |p|
    ensures p[i].0 != p[j].0
  {
    assert p[i] in multiset(t) && p[j] in multiset(t);
    var a :| 0 <= a < |t| && t[a] == p[i];
    var b :| 0 <= b < |t| && t[b] == p[j];
    if p[i] == p[j] {
      assert p == p[..i + 1] + p[i + 1..];
      assert multiset(p) == multiset(p[..i + 1]) + multiset(p[i + 1..]);
      assert p[j] in p[i + 1..];
      assert multiset(t)[t[a]] >= 2;
      CountOfDistinct(t, a);
      assert false;
    }
  }

  lemma {:induction false} CountOfDistinct<V>(t: Dict<V>, a: int)
    requires DistinctKeys(t)
    requires 0 <= a < |t|
    ensures multiset(t)[t[a]] == 1
  {
    assert t == [t[0]] + t[1..];
    if a == 0 {
      assert t[0] !in t[1..];
    } else {
      assert t[1..][a - 1] == t[a];
      CountOfDistinct(t[1..], a - 1);
    }
  }

  /** With distinct keys, `Get` finds every entry. */
  lemma {:induction false} GetOfDistinct<V>(d: Dict<V>, i: int)
    requires DistinctKeys(d)
    requires 0 <= i < |d|
    ensures Get(d, d[i].0) == Some(d[i].1)
  {
    if i > 0 {
      assert d[1..][i - 1] == d[i];
      GetOfDistinct(d[1..], i - 1);
    }
  }

  lemma KeysAppend<V>(a: Dict<V>, b: Dict<V>)
    ensures Keys(a + b) == Keys(a) + Keys(b)
  {
  }

  /** A permutation of a dict has the same keys. */
  lemma PermutationHasSameKeys<V>(d: Dict<V>, p: Dict<V>, k: string)
    requires multiset(p) == multiset(d)
    ensures HasKey(p, k) <==> HasKey(d, k)
  {
    if HasKey(p, k) {
      var i :| 0 <= i < |p| && Keys(p)[i] == k;
      assert p[i] in multiset(d);
      var m :| 0 <= m < |d| && d[m] == p[i];
      assert Keys(d)[m] == k;
    }
    if HasKey(d, k) {
      var m :| 0 <= m < |d| && Keys(d)[m] == k;
      assert d[m] in multiset(p);
      var i :| 0 <= i < |p| && p[i] == d[m];
      assert Keys(p)[i] == k;
    }
  }

  /** A permutation of a dict with distinct keys keeps every entry: `Get`
      on the original finds each of its pairs. */
  lemma PermutationKeepsEntries<V>(d: Dict<V>, p: Dict<V>)
    requires DistinctKeys(d)
    requires multiset(p) == multiset(d)
    ensures DistinctKeys(p)
    ensures forall i :: 0 <= i < |p| ==> Get(d, p[i].0) == Some(p[i].1)
  {
    forall i, j | 0 <= i < j < |p|
      ensures p[i].0 != p[j].0
    {
      DistinctKeysAfterPermutation(d, p, i, j);
    }
    forall i | 0 <= i < |p|
      ensures Get(d, p[i].0) == Some(p[i].1)
    {
      assert p[i] in multiset(d);
      var m :| 0 <= m < |d| && d[m] == p[i];
      GetOfDistinct(d, m);
    }
  }
}
