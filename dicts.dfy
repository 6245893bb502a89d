/**
 * A Python dict as a value: its keys in insertion order next to the
 * key-to-value map. Assigning to an existing key keeps its position;
 * a new key goes to the end.
 */
module Dicts {
  import opened Basics

  datatype Dict<K(==, !new), V> = Dict(keys: seq<K>, values: map<K, V>)

  function Empty<K(==, !new), V>(): Dict<K, V>
  {
    Dict([], map[])
  }

  /** The keys are distinct and are exactly the keys of the map. */
  ghost predicate Valid<K(!new), V>(d: Dict<K, V>)
  {
    && (forall i, j :: 0 <= i < j < |d.keys| ==> d.keys[i] != d.keys[j])
    && (forall k :: k in d.values <==> k in d.keys)
  }

  /** `d[k] = v` */
  function Put<K(==, !new), V>(d: Dict<K, V>, k: K, v: V): (r: Dict<K, V>)
    ensures k in r.values && r.values[k] == v
    ensures forall k' :: k' != k ==> (k' in r.values <==> k' in d.values)
    ensures forall k' :: k' != k && k' in d.values ==> r.values[k'] == d.values[k']
    ensures k in d.values ==> r.keys == d.keys
    ensures k !in d.values ==> r.keys == d.keys + [k]
  {
    if k in d.values then Dict(d.keys, d.values[k := v]) else Dict(d.keys + [k], d.values[k := v])
  }

  /** Assigning a key twice leaves the second value, at the key's first position. */
  lemma PutTwice<K(!new), V>(d: Dict<K, V>, k: K, v: V, w: V)
    ensures Put(Put(d, k, v), k, w) == Put(d, k, w)
  {
    assert Put(Put(d, k, v), k, w).values == Put(d, k, w).values;
  }

  /** e is d with keys appended: d's keys stay first, in order, with their values. */
  ghost predicate Grows<K(!new), V>(d: Dict<K, V>, e: Dict<K, V>)
  {
    && |d.keys| <= |e.keys| && e.keys[..|d.keys|] == d.keys
    && forall k :: k in d.values ==> k in e.values && e.values[k] == d.values[k]
  }

  /** Growing twice is growing. */
  lemma GrowsTrans<K(!new), V>(a: Dict<K, V>, b: Dict<K, V>, c: Dict<K, V>)
    requires Grows(a, b) && Grows(b, c)
    ensures Grows(a, c)
  {
    assert c.keys[..|a.keys|] == c.keys[..|b.keys|][..|a.keys|];
  }

  /** Assigning to a key either keeps the keys or appends it; a new key makes the dict grow. */
  lemma PutGrows<K(!new), V>(d: Dict<K, V>, k: K, v: V)
    requires k !in d.values
    ensures Grows(d, Put(d, k, v))
  {
    assert (d.keys + [k])[..|d.keys|] == d.keys;
  }

  /** `d.get(k, dflt)` */
  function Get<K(==, !new), V>(d: Dict<K, V>, k: K, dflt: V): V
  {
    if k in d.values then d.values[k] else dflt
  }

  /** Put keeps a dict valid: distinct keys, matching the map. */
  lemma PutValid<K(!new), V>(d: Dict<K, V>, k: K, v: V)
    requires Valid(d)
    ensures Valid(Put(d, k, v))
  {
  }

  /** `list(d.values())`, in key order. */
  function Values<K(==, !new), V>(d: Dict<K, V>): (r: seq<V>)
    requires forall k :: k in d.keys ==> k in d.values
    ensures |r| == |d.keys| && forall i :: 0 <= i < |r| ==> r[i] == d.values[d.keys[i]]
    decreases |d.keys|
  {
    if |d.keys| == 0 then []
    else Values(Dict(d.keys[..|d.keys| - 1], d.values)) + [d.values[d.keys[|d.keys| - 1]]]
  }

  /** `d[ks[j]] = vs[j]` for j from 0 to m - 1, in order. */
  function PutAll<K(==, !new), V>(d: Dict<K, V>, ks: seq<K>, vs: seq<V>, m: nat): Dict<K, V>
    requires m <= |ks| && m <= |vs|
  {
    if m == 0 then d else Put(PutAll(d, ks, vs, m - 1), ks[m - 1], vs[m - 1])
  }

  /** After putting the first m of ks, the keys are those of d and those m. */
  lemma {:induction false} PutAllDomain<K(!new), V>(d: Dict<K, V>, ks: seq<K>, vs: seq<V>, m: nat)
    requires m <= |ks| && m <= |vs|
    ensures forall k :: k in PutAll(d, ks, vs, m).values <==> (k in d.values || k in ks[..m])
  {
    if m > 0 {
      PutAllDomain(d, ks, vs, m - 1);
      assert ks[..m] == ks[..m - 1] + [ks[m - 1]];
    }
  }

  /** Putting new, distinct keys appends them to the keys, in order. */
  lemma {:induction false} PutAllKeys<K(!new), V>(d: Dict<K, V>, ks: seq<K>, vs: seq<V>, m: nat)
    requires m <= |ks| && m <= |vs| && Valid(d) && Distinct(d.keys + ks)
    ensures PutAll(d, ks, vs, m).keys == (d.keys + ks)[..|d.keys| + m]
  {
    if m > 0 {
      var w, n := d.keys + ks, |d.keys| + m - 1;
      PutAllKeys(d, ks, vs, m - 1);
      PutAllDomain(d, ks, vs, m - 1);
      assert ks[m - 1] !in d.values by {
        forall p | 0 <= p < |d.keys|
          ensures d.keys[p] != ks[m - 1]
        {
          assert w[p] == d.keys[p] && w[n] == ks[m - 1];
        }
      }
      assert ks[m - 1] !in ks[..m - 1] by {
        forall p | 0 <= p < m - 1
          ensures ks[p] != ks[m - 1]
        {
          assert w[|d.keys| + p] == ks[p] && w[n] == ks[m - 1];
        }
      }
      assert w[..n + 1] == w[..n] + [ks[m - 1]];
    }
  }

  /** Putting new, distinct keys keeps a dict valid. */
  lemma PutAllValid<K(!new), V>(d: Dict<K, V>, ks: seq<K>, vs: seq<V>, m: nat)
    requires m <= |ks| && m <= |vs| && Valid(d) && Distinct(d.keys + ks)
    ensures Valid(PutAll(d, ks, vs, m))
  {
    var w, n := d.keys + ks, |d.keys| + m;
    PutAllKeys(d, ks, vs, m);
    PutAllDomain(d, ks, vs, m);
    assert w[..n] == d.keys + ks[..m];
  }

  /** Putting all of new, distinct keys leaves a valid dict keyed by d's keys, then those. */
  lemma PutAllFresh<K(!new), V>(d: Dict<K, V>, ks: seq<K>, vs: seq<V>)
    requires |ks| == |vs| && Valid(d) && Distinct(d.keys + ks)
    ensures Valid(PutAll(d, ks, vs, |vs|)) && PutAll(d, ks, vs, |vs|).keys == d.keys + ks
  {
    PutAllKeys(d, ks, vs, |vs|);
    PutAllValid(d, ks, vs, |vs|);
    assert (d.keys + ks)[..|d.keys| + |vs|] == d.keys + ks;
  }

  /** Putting new, distinct keys keeps the entries of d, and each new key keeps its value. */
  lemma {:induction false} PutAllValues<K(!new), V>(d: Dict<K, V>, ks: seq<K>, vs: seq<V>, m: nat)
    requires m <= |ks| && m <= |vs| && Valid(d) && Distinct(d.keys + ks)
    ensures forall k :: k in d.values ==> (k in PutAll(d, ks, vs, m).values && PutAll(d, ks, vs, m).values[k] == d.values[k])
    ensures forall j :: 0 <= j < m ==> (ks[j] in PutAll(d, ks, vs, m).values && PutAll(d, ks, vs, m).values[ks[j]] == vs[j])
  {
    if m > 0 {
      var w := d.keys + ks;
      PutAllValues(d, ks, vs, m - 1);
      DistinctNotBefore(w, |d.keys| + m - 1);
      assert w[|d.keys| + m - 1] == ks[m - 1];
      assert d.keys == w[..|d.keys|];
      forall j | 0 <= j < m - 1
        ensures ks[j] != ks[m - 1]
      {
        assert w[|d.keys| + j] == ks[j];
      }
    }
  }
}
