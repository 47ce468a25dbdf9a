/**
 * The id-to-record index the stores keep beside their lists: a JavaScript
 * `Map` filled by `list.forEach((x) => map.set(key(x), x))`, and the
 * lookups made through it. Keys are given as a sequence parallel to the
 * records, `ks[i]` being the key of `vs[i]`.
 */
module KeyedIndex {

  /**
   * The position of the last occurrence of `k` in `ks`, or -1 when there is
   * none: the record that `Map.set` in list order leaves under `k`.
   */
  function LastIndex<K(==)>(ks: seq<K>, k: K): (i: int)
    ensures -1 <= i < |ks|
    ensures i >= 0 ==> ks[i] == k && forall j :: i < j < |ks| ==> ks[j] != k
    ensures i == -1 <==> k !in ks
  {
    if |ks| == 0 then -1
    else if ks[|ks| - 1] == k then |ks| - 1
    else
      assert ks == ks[..|ks| - 1] + [ks[|ks| - 1]];
      LastIndex(ks[..|ks| - 1], k)
  }

  /** The map that `forEach` + `Map.set` builds, one `set` per record in list order. */
  function IndexMap<K(==), V>(ks: seq<K>, vs: seq<V>): map<K, V>
    requires |ks| == |vs|
  {
    if |ks| == 0 then map[]
    else IndexMap(ks[..|ks| - 1], vs[..|vs| - 1])[ks[|ks| - 1] := vs[|vs| - 1]]
  }

  /**
   * The index has an entry for exactly the keys of the list, and each entry
   * is the record at the key's last position.
   */
  lemma {:induction false} IndexMapLast<K, V>(ks: seq<K>, vs: seq<V>)
    requires |ks| == |vs|
    ensures forall k :: k in ks ==> k in IndexMap(ks, vs)
    ensures forall k :: k in IndexMap(ks, vs) ==> k in ks
    ensures forall k :: k in IndexMap(ks, vs) ==> IndexMap(ks, vs)[k] == vs[LastIndex(ks, k)]
  {
    if |ks| > 0 {
      var n := |ks| - 1;
      IndexMapLast(ks[..n], vs[..n]);
      assert ks == ks[..n] + [ks[n]];
      forall k | k in IndexMap(ks, vs)
        ensures IndexMap(ks, vs)[k] == vs[LastIndex(ks, k)]
      {
        if k != ks[n] {
          var i := LastIndex(ks[..n], k);
          assert LastIndex(ks, k) == i;
          assert vs[..n][i] == vs[i];
        }
      }
    }
  }

  /** Adding one record at the end overrides the entry under its key. */
  lemma IndexMapAppend<K, V>(ks: seq<K>, vs: seq<V>, k: K, v: V)
    requires |ks| == |vs|
    ensures IndexMap(ks + [k], vs + [v]) == IndexMap(ks, vs)[k := v]
  {
    assert (ks + [k])[..|ks|] == ks;
    assert (vs + [v])[..|vs|] == vs;
  }

  /**
   * Replacing the record that the index refers to, keeping its key, replaces
   * that one entry of the index and no other: what mutating the shared
   * object in place amounts to.
   */
  lemma IndexMapUpdate<K, V>(ks: seq<K>, vs: seq<V>, j: nat, v: V)
    requires |ks| == |vs| && j < |ks| && LastIndex(ks, ks[j]) == j
    ensures IndexMap(ks, vs[j := v]) == IndexMap(ks, vs)[ks[j] := v]
  {
    IndexMapLast(ks, vs);
    IndexMapLast(ks, vs[j := v]);
    var a, b := IndexMap(ks, vs[j := v]), IndexMap(ks, vs)[ks[j] := v];
    assert ks[j] in ks;
    forall k | k in a ensures k in b && a[k] == b[k] {
      if k != ks[j] {
        assert LastIndex(ks, k) != j;
      }
    }
    forall k | k in b ensures k in a {
      if k != ks[j] {
        assert k in IndexMap(ks, vs);
      }
      assert k in ks;
      assert k in IndexMap(ks, vs[j := v]);
    }
    assert a == b;
  }

  /** `forEach` over the list calling `map.set` for each record. */
  method BuildIndex<K(==), V>(ks: seq<K>, vs: seq<V>) returns (m: map<K, V>)
    requires |ks| == |vs|
    ensures m == IndexMap(ks, vs)
  {
    m := map[];
    var i := 0;
    while i < |ks|
      invariant 0 <= i <= |ks|
      invariant m == IndexMap(ks[..i], vs[..i])
    {
      IndexMapAppend(ks[..i], vs[..i], ks[i], vs[i]);
      assert ks[..i + 1] == ks[..i] + [ks[i]];
      assert vs[..i + 1] == vs[..i] + [vs[i]];
      m := m[ks[i] := vs[i]];
      i := i + 1;
    }
    assert ks[..i] == ks && vs[..i] == vs;
  }

  /**
   * The records found under `ids`, in the order of `ids`, skipping the ids
   * the map has no entry for.
   */
  function Lookup<K(==), V>(m: map<K, V>, ids: seq<K>): (r: seq<V>)
    ensures |r| <= |ids|
    ensures forall v :: v in r ==> exists k :: k in ids && k in m && m[k] == v
  {
    if |ids| == 0 then []
    else
      var last := ids[|ids| - 1];
      assert forall k :: k in ids[..|ids| - 1] ==> k in ids;
      Lookup(m, ids[..|ids| - 1]) + (if last in m then [m[last]] else [])
  }

  /** Lookup keeps the order of the requested ids: it distributes over concatenation. */
  lemma {:induction false} LookupAppend<K, V>(m: map<K, V>, a: seq<K>, b: seq<K>)
    ensures Lookup(m, a + b) == Lookup(m, a) + Lookup(m, b)
  {
    if |b| > 0 {
      var n := |b| - 1;
      LookupAppend(m, a, b[..n]);
      assert (a + b)[..|a + b| - 1] == a + b[..n];
    } else {
      assert a + b == a;
    }
  }

  /** When every requested id is present, the i-th result is the entry of the i-th id. */
  lemma {:induction false} LookupAllPresent<K, V>(m: map<K, V>, ids: seq<K>)
    requires forall i :: 0 <= i < |ids| ==> ids[i] in m
    ensures |Lookup(m, ids)| == |ids|
    ensures forall i :: 0 <= i < |ids| ==> Lookup(m, ids)[i] == m[ids[i]]
  {
    if |ids| > 0 {
      LookupAllPresent(m, ids[..|ids| - 1]);
    }
  }

  /** The number of occurrences of `k` in `ks`. */
  function Count<K(==)>(ks: seq<K>, k: K): (c: nat)
    ensures c <= |ks|
    ensures c == 0 <==> k !in ks
  {
    if |ks| == 0 then 0
    else
      assert ks == ks[..|ks| - 1] + [ks[|ks| - 1]];
      Count(ks[..|ks| - 1], k) + (if ks[|ks| - 1] == k then 1 else 0)
  }

  /** The count over a list is the count over all but its last element, plus one if that element is `k`. */
  lemma CountSnoc<K>(ks: seq<K>, k: K)
    requires |ks| > 0
    ensures Count(ks, k) == Count(ks[..|ks| - 1], k) + (if ks[|ks| - 1] == k then 1 else 0)
  {
  }

  lemma CountAppendOne<K>(ks: seq<K>, x: K, k: K)
    ensures Count(ks + [x], k) == Count(ks, k) + (if x == k then 1 else 0)
  {
    assert (ks + [x])[..|ks|] == ks;
  }

  /** In a list without repetitions a present key occurs exactly once. */
  lemma {:induction false} CountDistinct<K>(ks: seq<K>, k: K)
    requires forall i, j :: 0 <= i < j < |ks| ==> ks[i] != ks[j]
    ensures Count(ks, k) == if k in ks then 1 else 0
  {
    if |ks| > 0 {
      var n := |ks| - 1;
      CountDistinct(ks[..n], k);
      if ks[n] == k {
        assert k !in ks[..n];
      }
    }
  }

  /** `n` copies of `x`. */
  function Repeat<T>(x: T, n: nat): (r: seq<T>)
    ensures |r| == n && forall i :: 0 <= i < n ==> r[i] == x
  {
    seq(n, _ => x)
  }

  /** One more copy of `x` after `base` and `n` copies. */
  lemma RepeatSnoc<T>(base: seq<T>, x: T, n: nat)
    ensures (base + Repeat(x, n)) + [x] == base + Repeat(x, n + 1)
  {
    assert (base + Repeat(x, n)) + [x] == base + (Repeat(x, n) + [x]);
  }

  /**
   * Appending `x` once per occurrence of `k` in `ks`, seen one key at a
   * time: the last key adds one more `x` exactly when it is `k`.
   */
  lemma RepeatCountSnoc<K, T>(base: seq<T>, ks: seq<K>, k: K, x: T)
    requires |ks| > 0
    ensures base + Repeat(x, Count(ks, k)) ==
      if ks[|ks| - 1] == k then (base + Repeat(x, Count(ks[..|ks| - 1], k))) + [x]
      else base + Repeat(x, Count(ks[..|ks| - 1], k))
  {
    CountSnoc(ks, k);
    if ks[|ks| - 1] == k {
      RepeatSnoc(base, x, Count(ks[..|ks| - 1], k));
    }
  }
}
