/**
 * Python's `dict` as a value: a mapping together with the insertion order of
 * its keys. Assigning to an existing key overwrites the value and keeps the
 * key where it was; assigning to a new key appends it; `del` removes a key
 * and keeps the order of the others. Iteration (`keys()`, `values()`,
 * `items()`) follows the insertion order.
 */
module PyDict {

  datatype Dict<K, V> = Dict(keys: seq<K>, entries: map<K, V>) {

    /** `keys` lists the keys of the mapping, each exactly once. */
    ghost predicate Valid()
    {
      && Enumerates(keys, entries.Keys)
      && (forall i :: 0 <= i < |keys| ==> keys[i] in entries)
    }

    /** `len(d)` */
    function Len(): nat
    {
      |keys|
    }

    /** `d[k] = v` */
    function Put(k: K, v: V): (d: Dict<K, V>)
      requires Valid()
      ensures d.Valid()
      ensures d.entries == entries[k := v]
      ensures d.keys == if k in entries then keys else keys + [k]
    {
      if k in entries then
        assert entries[k := v].Keys == entries.Keys;
        Dict(keys, entries[k := v])
      else
        var ks := keys + [k];
        assert ks[..|keys|] == keys;
        assert entries[k := v].Keys - {k} == entries.Keys;
        Dict(ks, entries[k := v])
    }

    /** `del d[k]` */
    function Remove(k: K): (d: Dict<K, V>)
      requires Valid() && k in entries
      ensures d.Valid()
      ensures d.entries == entries - {k}
      ensures |d.keys| == |keys| - 1
      ensures exists p :: 0 <= p < |keys| && keys[p] == k && d.keys == keys[..p] + keys[p + 1..]
    {
      EnumeratesMembers(keys, entries.Keys);
      var p := IndexOf(keys, k);
      CutValid(this, p);
      Dict(keys[..p] + keys[p + 1..], entries - {k})
    }

    /** `list(d.values())` */
    function Values(): (vs: seq<V>)
      requires Valid()
      ensures |vs| == |keys|
      ensures forall i :: 0 <= i < |keys| ==> vs[i] == entries[keys[i]]
    {
      seq(|keys|, i requires 0 <= i < |keys| => entries[keys[i]])
    }
  }

  /** `ks` lists the elements of `s`, each exactly once. */
  ghost predicate Enumerates<K>(ks: seq<K>, s: set<K>)
    decreases |ks|
  {
    if ks == [] then s == {}
    else ks[|ks| - 1] in s && Enumerates(ks[..|ks| - 1], s - {ks[|ks| - 1]})
  }

  lemma {:induction false} EnumeratesMembers<K>(ks: seq<K>, s: set<K>)
    requires Enumerates(ks, s)
    ensures forall x :: x in s <==> x in ks
    decreases |ks|
  {
    if ks != [] {
      var init, x := ks[..|ks| - 1], ks[|ks| - 1];
      EnumeratesMembers(init, s - {x});
      assert ks == init + [x];
    }
  }

  lemma {:induction false} EnumeratesDistinct<K>(ks: seq<K>, s: set<K>)
    requires Enumerates(ks, s)
    ensures forall i, j :: 0 <= i < j < |ks| ==> ks[i] != ks[j]
    decreases |ks|
  {
    if ks != [] {
      var init, x := ks[..|ks| - 1], ks[|ks| - 1];
      EnumeratesDistinct(init, s - {x});
      EnumeratesMembers(init, s - {x});
      forall i, j | 0 <= i < j < |ks| ensures ks[i] != ks[j] {
        assert ks[i] == init[i];
        if j < |init| {
          assert ks[j] == init[j];
        }
      }
    }
  }

  /** Cutting the key at position `p` out of the list enumerates the set without it. */
  lemma {:induction false} EnumeratesRemove<K>(ks: seq<K>, s: set<K>, p: nat)
    requires Enumerates(ks, s) && p < |ks|
    ensures Enumerates(ks[..p] + ks[p + 1..], s - {ks[p]})
    decreases |ks|
  {
    var n := |ks| - 1;
    var init, x := ks[..n], ks[n];
    if p == n {
      assert ks[..p] + ks[p + 1..] == init;
    } else {
      EnumeratesRemove(init, s - {x}, p);
      EnumeratesMembers(init, s - {x});
      assert ks[p] == init[p] && init[p] in init;
      var r := ks[..p] + ks[p + 1..];
      assert r[..|r| - 1] == init[..p] + init[p + 1..];
      assert r[|r| - 1] == x;
      assert (s - {ks[p]}) - {x} == (s - {x}) - {ks[p]};
    }
  }

  lemma {:induction false} EnumeratesCardinality<K>(ks: seq<K>, s: set<K>)
    requires Enumerates(ks, s)
    ensures |ks| == |s|
    decreases |ks|
  {
    if ks != [] {
      var init, x := ks[..|ks| - 1], ks[|ks| - 1];
      EnumeratesCardinality(init, s - {x});
    }
  }

  /** Cutting out the key at position `p` together with its entry leaves a valid dict. */
  lemma CutValid<K, V>(d: Dict<K, V>, p: nat)
    requires d.Valid() && p < |d.keys|
    ensures Dict(d.keys[..p] + d.keys[p + 1..], d.entries - {d.keys[p]}).Valid()
  {
    var ks, k := d.keys[..p] + d.keys[p + 1..], d.keys[p];
    EnumeratesRemove(d.keys, d.entries.Keys, p);
    assert (d.entries - {k}).Keys == d.entries.Keys - {k};
    EnumeratesMembers(ks, d.entries.Keys - {k});
    assert forall i :: 0 <= i < |ks| ==> ks[i] in ks;
  }

  /** The position of `k` in `keys`. */
  function IndexOf<K(==)>(keys: seq<K>, k: K): (p: nat)
    requires k in keys
    ensures p < |keys| && keys[p] == k
  {
    if keys[0] == k then 0 else 1 + IndexOf(keys[1..], k)
  }

  /** No key of a valid dict occurs twice. */
  lemma KeysDistinct<K, V>(d: Dict<K, V>)
    requires d.Valid()
    ensures forall i, j :: 0 <= i < j < |d.keys| ==> d.keys[i] != d.keys[j]
  {
    EnumeratesDistinct(d.keys, d.entries.Keys);
  }

  /** Every key of a valid dict's mapping is listed. */
  lemma KeysListed<K, V>(d: Dict<K, V>)
    requires d.Valid()
    ensures forall k :: k in d.entries <==> k in d.keys
  {
    EnumeratesMembers(d.keys, d.entries.Keys);
  }

  /** `del d[keys[p]]` cuts out exactly position `p`. */
  lemma RemoveAt<K, V>(d: Dict<K, V>, p: nat)
    requires d.Valid() && p < |d.keys|
    ensures d.keys[p] in d.entries
    ensures d.Remove(d.keys[p]).keys == d.keys[..p] + d.keys[p + 1..]
  {
    KeysDistinct(d);
    var r := d.Remove(d.keys[p]);
    var q :| 0 <= q < |d.keys| && d.keys[q] == d.keys[p] && r.keys == d.keys[..q] + d.keys[q + 1..];
    assert q == p;
  }

  /** A key is in a valid dict's mapping exactly when it is listed. */
  lemma KeyListed<K, V>(d: Dict<K, V>, k: K)
    requires d.Valid()
    ensures k in d.entries <==> k in d.keys
  {
    EnumeratesMembers(d.keys, d.entries.Keys);
  }

  /** `{}` */
  function Empty<K, V>(): (d: Dict<K, V>)
    ensures d.Valid() && d.Len() == 0 && d.entries == map[]
  {
    Dict([], map[])
  }

  /** A valid dict has as many keys as its mapping. */
  lemma LenIsCardinality<K, V>(d: Dict<K, V>)
    requires d.Valid()
    ensures d.Len() == |d.entries|
  {
    EnumeratesCardinality(d.keys, d.entries.Keys);
  }
}
