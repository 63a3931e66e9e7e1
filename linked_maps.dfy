/**
 * Kotlin's `LinkedHashMap<K, V>` as an association list: entries are kept
 * in insertion order and a key occurs at most once.
 */
module LinkedMaps {
  import opened Wrappers

  /** The keys of an association list, in order. */
  function Keys<K, V>(e: seq<(K, V)>): (ks: seq<K>)
    ensures |ks| == |e|
    ensures forall i :: 0 <= i < |e| ==> ks[i] == e[i].0
  {
    if e == [] then [] else [e[0].0] + Keys(e[1..])
  }

  /** No key occurs twice. */
  ghost predicate Distinct<K>(ks: seq<K>)
  {
    forall i, j :: 0 <= i < j < |ks| ==> ks[i] != ks[j]
  }

  /** `Map.get`: the value of the first entry with key `k`. */
  function Lookup<K(==), V>(e: seq<(K, V)>, k: K): Option<V>
  {
    if e == [] then None else if e[0].0 == k then Some(e[0].1) else Lookup(e[1..], k)
  }

  /** `map[k] = v`: replaces the value of an existing key in place, or appends a new entry. */
  function Put<K(==), V>(e: seq<(K, V)>, k: K, v: V): seq<(K, V)>
  {
    if e == [] then [(k, v)]
    else if e[0].0 == k then [(k, v)] + e[1..]
    else [e[0]] + Put(e[1..], k, v)
  }

  /** In an association list with distinct keys, the lookup of a key finds its entry. */
  lemma {:induction false} LookupFinds<K, V>(e: seq<(K, V)>, k: K)
    requires Distinct(Keys(e))
    ensures k in Keys(e) <==> Lookup(e, k).Some?
    ensures forall i :: 0 <= i < |e| && e[i].0 == k ==> Lookup(e, k) == Some(e[i].1)
  {
    if e != [] {
      assert Keys(e) == [e[0].0] + Keys(e[1..]);
      LookupFinds(e[1..], k);
      forall i | 0 <= i < |e| && e[i].0 == k ensures Lookup(e, k) == Some(e[i].1) {
        if i > 0 {
          assert Keys(e)[0] != Keys(e)[i];
          assert e[1..][i - 1] == e[i];
        }
      }
    }
  }

  /** Putting a key that is absent appends it as the last entry. */
  lemma {:induction false} PutAbsent<K, V>(e: seq<(K, V)>, k: K, v: V)
    requires k !in Keys(e)
    ensures Put(e, k, v) == e + [(k, v)]
    ensures Keys(Put(e, k, v)) == Keys(e) + [k]
  {
    if e != [] {
      assert Keys(e) == [e[0].0] + Keys(e[1..]);
      PutAbsent(e[1..], k, v);
      assert e == [e[0]] + e[1..];
    }
    LookupAppend(e, [(k, v)], k);
  }

  /**
   * Putting keeps the keys distinct, adds `k` if it was absent, makes `k`
   * map to `v` and leaves every other key's value as it was.
   */
  lemma {:induction false} PutEffect<K, V>(e: seq<(K, V)>, k: K, v: V)
    requires Distinct(Keys(e))
    ensures Distinct(Keys(Put(e, k, v)))
    ensures Keys(Put(e, k, v)) == if k in Keys(e) then Keys(e) else Keys(e) + [k]
    ensures Lookup(Put(e, k, v), k) == Some(v)
    ensures forall k' :: k' != k ==> Lookup(Put(e, k, v), k') == Lookup(e, k')
  {
    if e != [] {
      var t := e[1..];
      assert Keys(e) == [e[0].0] + Keys(t);
      assert Distinct(Keys(t));
      PutEffect(t, k, v);
      if e[0].0 == k {
        assert k !in Keys(t);
        assert Keys(Put(e, k, v)) == [k] + Keys(t);
      } else {
        assert Keys(Put(e, k, v)) == [e[0].0] + Keys(Put(t, k, v));
      }
    }
  }

  /** The keys of a concatenation, and where a lookup in it finds its value. */
  lemma {:induction false} LookupAppend<K, V>(a: seq<(K, V)>, b: seq<(K, V)>, k: K)
    ensures Keys(a + b) == Keys(a) + Keys(b)
    ensures Lookup(a + b, k) == if k in Keys(a) then Lookup(a, k) else Lookup(b, k)
  {
    if a != [] {
      assert (a + b)[1..] == a[1..] + b;
      assert Keys(a) == [a[0].0] + Keys(a[1..]);
      LookupAppend(a[1..], b, k);
    } else {
      assert a + b == b;
    }
  }

  /** Concatenating two lists of distinct keys with no key in common gives distinct keys. */
  lemma DistinctAppend<K>(a: seq<K>, b: seq<K>)
    requires Distinct(a) && Distinct(b)
    requires forall x :: x in a ==> x !in b
    ensures Distinct(a + b)
  {
    forall i, j | 0 <= i < j < |a + b| ensures (a + b)[i] != (a + b)[j] {
      if i < |a| <= j {
        assert (a + b)[i] in a && (a + b)[j] in b;
      } else if |a| <= i {
        assert (a + b)[i] == b[i - |a|] && (a + b)[j] == b[j - |a|];
      }
    }
  }
}
