/** Python's `dict`: a finite map that remembers the order in which its keys were first inserted.
    Iterating over a dict visits `keys` in that order. */
module PyDict {

  datatype Dict<K(==), V> = Dict(keys: seq<K>, m: map<K, V>)

  /** No element occurs twice. */
  ghost predicate Distinct<K>(s: seq<K>) {
    s == [] || (s[0] !in s[1..] && Distinct(s[1..]))
  }

  /** Appending a new element keeps a sequence free of repeats. */
  lemma {:induction false} DistinctAppend<K>(s: seq<K>, k: K)
    requires Distinct(s) && k !in s
    ensures Distinct(s + [k])
  {
    if s != [] {
      assert (s + [k])[1..] == s[1..] + [k];
      DistinctAppend(s[1..], k);
    }
  }

  /** `xs` lists the elements of `s`, each once: one order in which iterating a Python set
      may visit it. */
  ghost predicate Enumerates<T(!new)>(xs: seq<T>, s: set<T>) {
    Distinct(xs) && (forall x :: x in xs <==> x in s)
  }

  /** The index form of `Distinct`: no two positions hold the same element. */
  lemma {:induction false} DistinctIndexed<K>(s: seq<K>)
    ensures Distinct(s) <==> forall i, j :: 0 <= i < j < |s| ==> s[i] != s[j]
  {
    if s != [] {
      DistinctIndexed(s[1..]);
      if Distinct(s) {
        forall i, j | 0 <= i < j < |s| ensures s[i] != s[j] {
          if i > 0 { assert s[i] == s[1..][i - 1] && s[j] == s[1..][j - 1]; }
          else { assert s[j] == s[1..][j - 1]; }
        }
      }
      if forall i, j :: 0 <= i < j < |s| ==> s[i] != s[j] {
        forall i, j | 0 <= i < j < |s[1..]| ensures s[1..][i] != s[1..][j] {
          assert s[1..][i] == s[i + 1] && s[1..][j] == s[j + 1];
        }
      }
    }
  }

  /** Dropping the last element keeps a sequence free of repeats, and that element is not
      among the others. */
  lemma DistinctInit<K>(s: seq<K>)
    requires Distinct(s) && s != []
    ensures Distinct(s[..|s| - 1]) && s[|s| - 1] !in s[..|s| - 1]
  {
    var n := |s| - 1;
    DistinctIndexed(s);
    DistinctIndexed(s[..n]);
  }

  /** `orders[j]` is an order in which iterating the set stored under the `j`-th key of `d`
      may visit it. */
  ghost predicate IterationOrders<K, T(!new)>(d: Dict<K, set<T>>, orders: seq<seq<T>>) {
    && |orders| == |d.keys|
    && (forall j :: 0 <= j < |orders| ==> Enumerates(orders[j], Get(d, d.keys[j], {})))
  }

  /** The key sequence lists every key of the map exactly once. */
  ghost predicate Valid<K, V>(d: Dict<K, V>) {
    && Distinct(d.keys)
    && (forall k :: k in d.keys ==> k in d.m)
    && (forall k :: k in d.m ==> k in d.keys)
  }

  function Empty<K(==), V>(): (d: Dict<K, V>)
    ensures Valid(d) && d.m == map[]
  {
    Dict([], map[])
  }

  /** `d.get(k, default)` */
  function Get<K(==), V>(d: Dict<K, V>, k: K, default: V): V {
    if k in d.m then d.m[k] else default
  }

  /** `d[k] = v`: an existing key keeps its place, a new key goes last. */
  function Put<K(==), V>(d: Dict<K, V>, k: K, v: V): Dict<K, V> {
    Dict(if k in d.m then d.keys else d.keys + [k], d.m[k := v])
  }

  /** Assignment keeps every key listed exactly once. */
  lemma PutValid<K, V>(d: Dict<K, V>, k: K, v: V)
    requires Valid(d)
    ensures Valid(Put(d, k, v))
  {
    if k !in d.m {
      DistinctAppend(d.keys, k);
    }
  }

  /** The keys of a valid dict, as a set, are its map's keys. */
  lemma KeySet<K, V>(d: Dict<K, V>)
    requires Valid(d)
    ensures (set k | k in d.keys) == d.m.Keys
  {
  }

  /** Writing a key twice is writing it once with the last value, and the key keeps its first place. */
  lemma PutPut<K, V>(d: Dict<K, V>, k: K, v: V, w: V)
    ensures Put(Put(d, k, v), k, w) == Put(d, k, w)
  {
  }

  /** The sum of `f` over the values at `ks`; a key without a value adds nothing. */
  function SumOver<K, V>(ks: seq<K>, m: map<K, V>, f: V -> nat): nat {
    if ks == [] then 0 else (if ks[0] in m then f(m[ks[0]]) else 0) + SumOver(ks[1..], m, f)
  }

  /** The sum of `f` over every value of the dict. */
  function Sum<K, V>(d: Dict<K, V>, f: V -> nat): nat {
    SumOver(d.keys, d.m, f)
  }

  lemma {:induction false} SumOverAppend<K, V>(ks: seq<K>, k: K, m: map<K, V>, f: V -> nat)
    ensures SumOver(ks + [k], m, f) == SumOver(ks, m, f) + (if k in m then f(m[k]) else 0)
  {
    if ks != [] {
      assert (ks + [k])[1..] == ks[1..] + [k];
      SumOverAppend(ks[1..], k, m, f);
    }
  }

  lemma {:induction false} SumOverUpdate<K, V>(ks: seq<K>, m: map<K, V>, k: K, v: V, f: V -> nat)
    requires Distinct(ks)
    ensures k !in ks ==> SumOver(ks, m[k := v], f) == SumOver(ks, m, f)
    ensures k in ks ==> SumOver(ks, m[k := v], f) + (if k in m then f(m[k]) else 0) == SumOver(ks, m, f) + f(v)
  {
    if ks != [] {
      assert Distinct(ks[1..]);
      SumOverUpdate(ks[1..], m, k, v, f);
      if ks[0] == k {
        assert k !in ks[1..];
      }
    }
  }

  /** Summing after `d[k] = v`: the old value at `k`, if there was one, is replaced by `v`. */
  lemma {:induction false} SumAfterPut<K, V>(d: Dict<K, V>, k: K, v: V, f: V -> nat)
    requires Valid(d)
    ensures Sum(Put(d, k, v), f) + (if k in d.m then f(d.m[k]) else 0) == Sum(d, f) + f(v)
  {
    SumOverUpdate(d.keys, d.m, k, v, f);
    if k !in d.m {
      SumOverAppend(d.keys, k, d.m[k := v], f);
    }
  }
}
