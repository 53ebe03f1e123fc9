/**
  Python dictionaries whose iteration order matters: a sequence of key/value
  pairs kept in first-insertion order. Assigning to a key that is already
  present replaces its value in place; a new key goes to the end.
 */
module OrderedMap {
  import opened Common

  type AList<K, V> = seq<(K, V)>

  /** The keys in iteration order (also the first components of any pair list). */
  function Keys<K, V>(m: AList<K, V>): (ks: seq<K>)
    ensures |ks| == |m|
    ensures forall i :: 0 <= i < |m| ==> ks[i] == m[i].0
  {
    seq(|m|, i requires 0 <= i < |m| => m[i].0)
  }

  predicate Distinct<T(==)>(s: seq<T>) {
    forall i, j :: 0 <= i < j < |s| ==> s[i] != s[j]
  }

  function Elements<T(==)>(s: seq<T>): set<T> {
    set x | x in s
  }

  /** Python's `m.get(k)`: the value stored under `k`, if any. */
  function Get<K(==), V>(m: AList<K, V>, k: K): (r: Option<V>)
    ensures r.Some? <==> k in Keys(m)
  {
    if m == [] then None
    else if m[0].0 == k then Some(m[0].1)
    else
      assert Keys(m) == [m[0].0] + Keys(m[1..]);
      Get(m[1..], k)
  }

  /** The keys of a list with one more pair in front. */
  lemma KeysCons<K, V>(x: (K, V), m: AList<K, V>)
    ensures Keys([x] + m) == [x.0] + Keys(m)
  {
  }

  /** Looking up in a list with one more pair in front. */
  lemma GetCons<K, V>(x: (K, V), m: AList<K, V>)
    ensures forall k :: Get([x] + m, k) == if x.0 == k then Some(x.1) else Get(m, k)
  {
    assert ([x] + m)[1..] == m;
  }

  /** Python's `m[k] = v`. */
  function Put<K(==,!new), V>(m: AList<K, V>, k: K, v: V): (r: AList<K, V>)
    ensures Keys(r) == if k in Keys(m) then Keys(m) else Keys(m) + [k]
    ensures Get(r, k) == Some(v)
    ensures forall k' :: k' != k ==> Get(r, k') == Get(m, k')
  {
    if m == [] then [(k, v)]
    else
      assert m == [m[0]] + m[1..];
      KeysCons(m[0], m[1..]);
      GetCons(m[0], m[1..]);
      if m[0].0 == k then
        KeysCons((k, v), m[1..]);
        GetCons((k, v), m[1..]);
        [(k, v)] + m[1..]
      else
        var tail := Put(m[1..], k, v);
        KeysCons(m[0], tail);
        GetCons(m[0], tail);
        [m[0]] + tail
  }

  /** Assigning keeps every key at most once. */
  lemma PutKeepsDistinct<K(!new), V>(m: AList<K, V>, k: K, v: V)
    requires Distinct(Keys(m))
    ensures Distinct(Keys(Put(m, k, v)))
  {
  }

  /** Python's `setdefault(k, []).append(x)`: add `x` to the list stored under `k`. */
  function Append<K(==,!new), X>(m: AList<K, seq<X>>, k: K, x: X): (r: AList<K, seq<X>>)
    ensures Keys(r) == if k in Keys(m) then Keys(m) else Keys(m) + [k]
    ensures Get(r, k) == Some(Get(m, k).GetOr([]) + [x])
    ensures forall k' :: k' != k ==> Get(r, k') == Get(m, k')
  {
    Put(m, k, Get(m, k).GetOr([]) + [x])
  }

  /** The elements of `s` in order of first occurrence, each once. */
  function Dedup<T(==,!new)>(s: seq<T>): (d: seq<T>)
    ensures Distinct(d)
    ensures forall x :: x in d <==> x in s
  {
    if s == [] then []
    else
      var n := |s| - 1;
      var d := Dedup(s[..n]);
      assert s == s[..n] + [s[n]];
      if s[n] in d then d else d + [s[n]]
  }

  /** A list without repeats has as many elements as its set. */
  lemma {:induction false} DistinctCardinality<T>(s: seq<T>)
    requires Distinct(s)
    ensures |Elements(s)| == |s|
  {
    if s != [] {
      var n := |s| - 1;
      var p := s[..n];
      assert Distinct(p);
      DistinctCardinality(p);
      assert Elements(s) == Elements(p) + {s[n]} by {
        assert s == p + [s[n]];
      }
      assert s[n] !in Elements(p);
    }
  }

  /** The number of distinct values in `s`. */
  lemma DedupCardinality<T(!new)>(s: seq<T>)
    ensures |Dedup(s)| == |Elements(s)|
  {
    DistinctCardinality(Dedup(s));
    assert Elements(Dedup(s)) == Elements(s);
  }

  /** The position of the first occurrence of `x` in `s`. */
  function FirstIndex<T(==)>(s: seq<T>, x: T): (i: nat)
    requires x in s
    ensures i < |s| && s[i] == x && x !in s[..i]
  {
    if s[0] == x then 0
    else
      var i := FirstIndex(s[1..], x);
      assert s[..i + 1] == [s[0]] + s[1..][..i];
      i + 1
  }

  /** Any position that holds `x` with no earlier `x` is the first index. */
  lemma FirstIndexUnique<T>(s: seq<T>, x: T, i: nat)
    requires i < |s| && s[i] == x && x !in s[..i]
    ensures FirstIndex(s, x) == i
  {
    var k := FirstIndex(s, x);
    assert forall m :: 0 <= m < i ==> s[..i][m] == s[m];
    assert forall m :: 0 <= m < k ==> s[..k][m] == s[m];
  }

  /** Extending a sequence does not move the first occurrence of an element it already held. */
  lemma FirstIndexPrefix<T>(s: seq<T>, n: nat, x: T)
    requires n <= |s| && x in s[..n]
    ensures FirstIndex(s, x) == FirstIndex(s[..n], x)
  {
    var k := FirstIndex(s[..n], x);
    assert s[..k] == s[..n][..k];
    FirstIndexUnique(s, x, k);
  }

  /** `Dedup` lists the elements in the order of their first occurrence. */
  lemma {:induction false} DedupFirstOccurrence<T(!new)>(s: seq<T>)
    ensures forall i, j :: 0 <= i < j < |Dedup(s)| ==> FirstIndex(s, Dedup(s)[i]) < FirstIndex(s, Dedup(s)[j])
  {
    if s != [] {
      var n := |s| - 1;
      var p := s[..n];
      var d := Dedup(p);
      DedupFirstOccurrence(p);
      assert s == p + [s[n]];
      forall y | y in d
        ensures FirstIndex(s, y) == FirstIndex(p, y) < n
      {
        FirstIndexPrefix(s, n, y);
      }
      if s[n] !in d {
        assert s[n] !in s[..n];
        FirstIndexUnique(s, s[n], n);
        assert Dedup(s) == d + [s[n]];
      }
    }
  }

  /** The dict built by assigning each pair in turn, as a Python loop does. */
  function FromPairs<K(==,!new), V>(ps: seq<(K, V)>): AList<K, V> {
    if ps == [] then []
    else
      var n := |ps| - 1;
      Put(FromPairs(ps[..n]), ps[n].0, ps[n].1)
  }

  /** The value of the last pair whose key is `k`. */
  function LastValue<K(==), V>(ps: seq<(K, V)>, k: K): Option<V> {
    if ps == [] then None
    else
      var n := |ps| - 1;
      if ps[n].0 == k then Some(ps[n].1) else LastValue(ps[..n], k)
  }

  /** Building a dict pair by pair orders its keys by first assignment. */
  lemma {:induction false} FromPairsKeys<K(!new), V>(ps: seq<(K, V)>)
    ensures Keys(FromPairs(ps)) == Dedup(Keys(ps))
    ensures Distinct(Keys(FromPairs(ps)))
  {
    if ps != [] {
      var n := |ps| - 1;
      FromPairsKeys(ps[..n]);
      assert Keys(ps[..n]) == Keys(ps)[..n];
    }
  }

  /** Building a dict pair by pair keeps the last value assigned to each key. */
  lemma {:induction false} FromPairsGet<K(!new), V>(ps: seq<(K, V)>, k: K)
    ensures Get(FromPairs(ps), k) == LastValue(ps, k)
  {
    if ps != [] {
      FromPairsGet(ps[..|ps| - 1], k);
    }
  }

  /** A pair that is part of a dict without repeated keys is what the dict holds for its key. */
  lemma {:induction false} GetAt<K, V>(m: AList<K, V>, i: nat)
    requires i < |m| && Distinct(Keys(m))
    ensures Get(m, m[i].0) == Some(m[i].1)
  {
    if i > 0 {
      assert m[0].0 != m[i].0 by { assert Keys(m)[0] != Keys(m)[i]; }
      assert Distinct(Keys(m[1..])) by {
        forall a, b | 0 <= a < b < |m| - 1
          ensures Keys(m[1..])[a] != Keys(m[1..])[b]
        {
          assert Keys(m)[a + 1] != Keys(m)[b + 1];
        }
      }
      GetAt(m[1..], i - 1);
    }
  }

  /** The value of the last pair for `k` is the value of some pair for `k`. */
  lemma {:induction false} LastValueIsPair<K, V>(ps: seq<(K, V)>, k: K)
    requires LastValue(ps, k).Some?
    ensures (k, LastValue(ps, k).value) in ps
  {
    var n := |ps| - 1;
    if ps[n].0 != k {
      LastValueIsPair(ps[..n], k);
      assert ps[..n] <= ps;
    }
  }

  /** The values paired with `k`, in order. */
  function ValuesFor<K(==), X>(ps: seq<(K, X)>, k: K): seq<X> {
    if ps == [] then []
    else
      var n := |ps| - 1;
      ValuesFor(ps[..n], k) + if ps[n].0 == k then [ps[n].1] else []
  }

  /** The Python loop that appends each pair's value to the list under its key, in order. */
  function AppendAll<K(==,!new), X>(m: AList<K, seq<X>>, ps: seq<(K, X)>): AList<K, seq<X>> {
    if ps == [] then m
    else
      var n := |ps| - 1;
      Append(AppendAll(m, ps[..n]), ps[n].0, ps[n].1)
  }

  /** Appending two runs of pairs is appending their concatenation. */
  lemma {:induction false} AppendAllConcat<K(!new), X>(m: AList<K, seq<X>>, ps: seq<(K, X)>, qs: seq<(K, X)>)
    ensures AppendAll(m, ps + qs) == AppendAll(AppendAll(m, ps), qs)
  {
    if qs == [] {
      assert ps + qs == ps;
    } else {
      var n := |qs| - 1;
      assert (ps + qs)[..|ps + qs| - 1] == ps + qs[..n];
      assert (ps + qs)[|ps + qs| - 1] == qs[n];
      AppendAllConcat(m, ps, qs[..n]);
      AppendAllLast(m, ps + qs);
      AppendAllLast(AppendAll(m, ps), qs);
    }
  }

  /** One unfolding of `AppendAll`: the last pair is appended after all the others. */
  lemma AppendAllLast<K(!new), X>(m: AList<K, seq<X>>, ps: seq<(K, X)>)
    requires ps != []
    ensures AppendAll(m, ps) == Append(AppendAll(m, ps[..|ps| - 1]), ps[|ps| - 1].0, ps[|ps| - 1].1)
  {
  }

  /**
    After the appends, a key holds its earlier list followed by every value
    paired with it, in order; a key that had no list and no values is still
    absent.
   */
  lemma {:induction false} AppendAllGet<K(!new), X>(m: AList<K, seq<X>>, ps: seq<(K, X)>, k: K)
    ensures Get(AppendAll(m, ps), k) ==
      if Get(m, k).None? && ValuesFor(ps, k) == [] then None else Some(Get(m, k).GetOr([]) + ValuesFor(ps, k))
  {
    if ps == [] {
      assert Get(m, k).GetOr([]) + [] == Get(m, k).GetOr([]);
    } else {
      var n := |ps| - 1;
      var before := AppendAll(m, ps[..n]);
      AppendAllGet(m, ps[..n], k);
      AppendAllLast(m, ps);
      if ps[n].0 == k {
        assert ValuesFor(ps, k) == ValuesFor(ps[..n], k) + [ps[n].1];
        assert Get(before, k).GetOr([]) == Get(m, k).GetOr([]) + ValuesFor(ps[..n], k);
        assert Get(m, k).GetOr([]) + ValuesFor(ps[..n], k) + [ps[n].1] == Get(m, k).GetOr([]) + ValuesFor(ps, k);
      } else {
        assert ValuesFor(ps, k) == ValuesFor(ps[..n], k) + [];
        assert ValuesFor(ps[..n], k) + [] == ValuesFor(ps[..n], k);
      }
    }
  }

  /** A key has no values exactly when no pair carries it. */
  lemma {:induction false} ValuesForEmpty<K, X>(ps: seq<(K, X)>, k: K)
    ensures ValuesFor(ps, k) == [] <==> k !in Keys(ps)
  {
    if ps != [] {
      var n := |ps| - 1;
      ValuesForEmpty(ps[..n], k);
      assert Keys(ps) == Keys(ps[..n]) + [ps[n].0];
    }
  }
}
