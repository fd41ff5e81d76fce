/**
 * HashCollection: a multi-map from keys to lists of values that keeps duplicates. The Java
 * class wraps a Hashtable of ArrayLists; here the table is a map from keys to sequences.
 */
module Collections {
  import opened Common

  /** The list stored under `key`, or the empty list when there is none. */
  function Lookup<K, V>(m: map<K, seq<V>>, key: K): seq<V>
  {
    if key in m then m[key] else []
  }

  /** `m` with `vs` appended to the list under `key`; appending nothing adds no key. */
  function Appended<K(!new), V>(m: map<K, seq<V>>, key: K, vs: seq<V>): (r: map<K, seq<V>>)
    ensures |vs| > 0 ==> key in r && r[key] == Lookup(m, key) + vs
    ensures forall k :: k != key ==> (k in r <==> k in m) && (k in m ==> r[k] == m[k])
    ensures |vs| == 0 ==> r == m
  {
    if |vs| == 0 then m else m[key := Lookup(m, key) + vs]
  }

  lemma LookupAppended<K(!new), V>(m: map<K, seq<V>>, key: K, vs: seq<V>)
    ensures forall k :: Lookup(Appended(m, key, vs), k) == if k == key then Lookup(m, key) + vs else Lookup(m, k)
  {
  }

  lemma AppendedTwice<K(!new), V>(m: map<K, seq<V>>, key: K, vs: seq<V>, v: V)
    ensures Appended(Appended(m, key, vs), key, [v]) == Appended(m, key, vs + [v])
  {
    if |vs| > 0 {
      assert Lookup(m, key) + vs + [v] == Lookup(m, key) + (vs + [v]);
    } else {
      assert vs + [v] == [v];
    }
  }

  /** Every value held in some list of `m`. */
  ghost function AllValues<K, V>(m: map<K, seq<V>>): iset<V>
  {
    iset k, v | k in m && v in m[k] :: v
  }

  /**
   * The table a run of putEnt calls builds from empty: each value appended under its key, in
   * order (the shape of every query that fills a HashCollection from a result set).
   */
  function Grouped<K(!new), V>(pairs: seq<(K, V)>): map<K, seq<V>>
  {
    if |pairs| == 0 then map[]
    else
      var last := pairs[|pairs| - 1];
      Appended(Grouped(pairs[..|pairs| - 1]), last.0, [last.1])
  }

  /** The list under `k` holds the values paired with `k`, in order. */
  function ValuesOf<K(==), V>(pairs: seq<(K, V)>, k: K): (r: seq<V>)
    ensures |r| <= |pairs|
  {
    if |pairs| == 0 then []
    else
      var last := pairs[|pairs| - 1];
      ValuesOf(pairs[..|pairs| - 1], k) + (if last.0 == k then [last.1] else [])
  }

  /** A key is present exactly when some pair carries it, and its list is the paired values. */
  lemma {:induction false} GroupedSpec<K(!new), V>(pairs: seq<(K, V)>, k: K)
    ensures k in Grouped(pairs) <==> exists i :: 0 <= i < |pairs| && pairs[i].0 == k
    ensures k in Grouped(pairs) ==> Grouped(pairs)[k] == ValuesOf(pairs, k)
    decreases |pairs|
  {
    if |pairs| > 0 {
      var init := pairs[..|pairs| - 1];
      GroupedSpec(init, k);
      if exists i :: 0 <= i < |init| && init[i].0 == k {
        var i :| 0 <= i < |init| && init[i].0 == k;
        assert pairs[i] == init[i];
      }
      if exists i :: 0 <= i < |pairs| && pairs[i].0 == k {
        var i :| 0 <= i < |pairs| && pairs[i].0 == k;
        if i < |init| {
          assert init[i] == pairs[i];
        }
      }
      if k !in Grouped(init) {
        assert ValuesOf(init, k) == [] by {
          ValuesOfAbsent(init, k);
        }
      }
    }
  }

  lemma {:induction false} ValuesOfAbsent<K, V>(pairs: seq<(K, V)>, k: K)
    requires forall i :: 0 <= i < |pairs| ==> pairs[i].0 != k
    ensures ValuesOf(pairs, k) == []
    decreases |pairs|
  {
    if |pairs| > 0 {
      ValuesOfAbsent(pairs[..|pairs| - 1], k);
    }
  }

  /** `v` is listed under `k` exactly when the pair `(k, v)` was put. */
  lemma {:induction false} ValuesOfMembership<K, V>(pairs: seq<(K, V)>, k: K, v: V)
    ensures v in ValuesOf(pairs, k) <==> (k, v) in pairs
    decreases |pairs|
  {
    if |pairs| > 0 {
      var init := pairs[..|pairs| - 1];
      ValuesOfMembership(init, k, v);
      assert pairs == init + [pairs[|pairs| - 1]];
    }
  }

  /** The values under `k` of a concatenation are those of each part, in order. */
  lemma {:induction false} ValuesOfAppend<K, V>(a: seq<(K, V)>, b: seq<(K, V)>, k: K)
    ensures ValuesOf(a + b, k) == ValuesOf(a, k) + ValuesOf(b, k)
    decreases |b|
  {
    if |b| == 0 {
      assert a + b == a;
    } else {
      var bi := b[..|b| - 1];
      assert (a + b)[..|a + b| - 1] == a + bi;
      ValuesOfAppend(a, bi, k);
    }
  }

  /** After putEnt of each pair, `v` is listed under `k` exactly when the pair `(k, v)` was put. */
  lemma GroupedLookup<K(!new), V>(pairs: seq<(K, V)>, k: K, v: V)
    ensures v in Lookup(Grouped(pairs), k) <==> (k, v) in pairs
  {
    GroupedSpec(pairs, k);
    ValuesOfMembership(pairs, k, v);
    if (k, v) in pairs {
      var i :| 0 <= i < |pairs| && pairs[i] == (k, v);
      assert pairs[i].0 == k;
    }
  }

  class HashCollection<K(==, !new), V(==)> {
    /** mHash */
    var hash: map<K, seq<V>>

    constructor ()
      ensures hash == map[]
    {
      hash := map[];
    }

    /** The constructor that adopts an existing table. */
    constructor FromTable(table: map<K, seq<V>>)
      ensures hash == table
    {
      hash := table;
    }

    /**
     * putEnt: append `value` to the list under `key`, creating the list when the key is new.
     * A value already in the list is appended again.
     */
    method PutEnt(key: K, value: V)
      modifies this
      ensures hash == Appended(old(hash), key, [value])
      ensures GetList(key) == Some(Lookup(old(hash), key) + [value])
    {
      if key in hash {
        hash := hash[key := hash[key] + [value]];
      } else {
        assert Lookup(hash, key) + [value] == [value];
        hash := hash[key := [value]];
      }
    }

    /** putList: putEnt of each element of `list`, in order. */
    method PutList(key: K, list: seq<V>)
      modifies this
      ensures hash == Appended(old(hash), key, list)
    {
      var i := 0;
      while i < |list|
        invariant 0 <= i <= |list|
        invariant hash == Appended(old(hash), key, list[..i])
      {
        assert list[..i + 1] == list[..i] + [list[i]];
        AppendedTwice(old(hash), key, list[..i], list[i]);
        PutEnt(key, list[i]);
        i := i + 1;
      }
      assert list[..i] == list;
    }

    /**
     * putAll: for each key of `other` (in the table's unspecified order), putEnt each value of
     * its list. Each key is visited once, so the order does not change the outcome.
     */
    method PutAll(other: HashCollection<K, V>)
      requires other != this
      modifies this
      ensures forall k :: k in hash <==> k in old(hash) || (k in other.hash && |other.hash[k]| > 0)
      ensures forall k :: k in hash ==> hash[k] == Lookup(old(hash), k) + Lookup(other.hash, k)
    {
      var todo := other.hash.Keys;
      while todo != {}
        invariant todo <= other.hash.Keys
        invariant forall k :: k in hash <==>
          k in old(hash) || (k in other.hash && k !in todo && |other.hash[k]| > 0)
        invariant forall k :: k in hash ==>
          hash[k] == Lookup(old(hash), k) + (if k in todo then [] else Lookup(other.hash, k))
        decreases todo
      {
        var key :| key in todo;
        var values := other.hash[key];
        PutList(key, values);
        todo := todo - {key};
        assert forall k :: k in hash ==> hash[k] == Lookup(old(hash), k) + (if k in todo then [] else Lookup(other.hash, k)) by {
          forall k | k in hash && k == key
            ensures hash[k] == Lookup(old(hash), k) + Lookup(other.hash, k)
          {
            if |values| == 0 {
              assert Lookup(other.hash, k) == [];
            }
          }
        }
      }
    }

    /** getList / get: the list under `key`, or null when the key is absent. */
    function GetList(key: K): (r: Option<seq<V>>)
      reads this
      ensures r.Some? <==> ContainsKey(key)
      ensures r.Some? ==> r.value == Lookup(hash, key)
    {
      if key in hash then Some(hash[key]) else None
    }

    /** containsKey: a key that is present makes the collection non-empty. */
    predicate ContainsKey(key: K): (b: bool)
      reads this
      ensures b ==> |hash| > 0
    {
      key in hash
    }

    /** size: the number of keys; 0 exactly when containsKey is false for every key. */
    function Size(): (n: nat)
      reads this
      ensures n == 0 <==> forall k :: !ContainsKey(k)
    {
      if hash == map[] then 0
      else
        var k :| k in hash;
        assert ContainsKey(k);
        |hash|
    }

    /** remove: drop `key` and hand back the list it had (null when absent). */
    method Remove(key: K) returns (r: Option<seq<V>>)
      modifies this
      ensures r == old(GetList(key))
      ensures hash == old(hash) - {key}
      ensures !ContainsKey(key)
    {
      r := GetList(key);
      hash := hash - {key};
    }

    /** clear: remove every key, one at a time. */
    method Clear()
      modifies this
      ensures hash == map[]
      ensures Size() == 0
    {
      var keys := hash.Keys;
      while keys != {}
        invariant hash.Keys == keys
        decreases keys
      {
        var k :| k in keys;
        var _ := Remove(k);
        keys := keys - {k};
      }
      assert hash == map[];
    }

    /** getKeyList: the keys, each once, in the table's (unspecified) order. */
    method GetKeyList() returns (keys: seq<K>)
      ensures forall k :: k in keys <==> k in hash
      ensures forall i, j :: 0 <= i < j < |keys| ==> keys[i] != keys[j]
      ensures |keys| == Size()
    {
      keys := [];
      var rest := hash.Keys;
      while rest != {}
        invariant rest <= hash.Keys
        invariant forall k :: k in keys <==> k in hash && k !in rest
        invariant forall i, j :: 0 <= i < j < |keys| ==> keys[i] != keys[j]
        invariant |keys| + |rest| == |hash.Keys|
        decreases rest
      {
        var k :| k in rest;
        keys := keys + [k];
        rest := rest - {k};
      }
      assert |hash.Keys| == |hash|;
    }

    /** getValueHash: a table whose keys are all the values of all lists, each mapped to "". */
    method GetValueHash() returns (values: map<V, string>)
      ensures forall v :: v in values <==> v in AllValues(hash)
      ensures forall v :: v in values ==> values[v] == ""
    {
      values := map[];
      var rest := hash.Keys;
      while rest != {}
        invariant rest <= hash.Keys
        invariant forall v :: v in values <==> exists k :: k in hash && k !in rest && v in hash[k]
        invariant forall v :: v in values ==> values[v] == ""
        decreases rest
      {
        var key :| key in rest;
        var list := hash[key];
        var i := 0;
        while i < |list|
          invariant 0 <= i <= |list|
          invariant forall v :: v in values <==>
            (exists k :: k in hash && k !in rest && v in hash[k]) || v in list[..i]
          invariant forall v :: v in values ==> values[v] == ""
        {
          assert list[..i + 1] == list[..i] + [list[i]];
          values := values[list[i] := ""];
          i := i + 1;
        }
        assert list[..i] == list;
        rest := rest - {key};
      }
    }
  }

  /** A new collection filled by putEnt of each pair in order. */
  method Collect<K(==, !new), V(==)>(pairs: seq<(K, V)>) returns (c: HashCollection<K, V>)
    ensures fresh(c) && c.hash == Grouped(pairs)
  {
    c := new HashCollection();
    var i := 0;
    while i < |pairs|
      invariant 0 <= i <= |pairs|
      invariant c.hash == Grouped(pairs[..i])
    {
      assert pairs[..i + 1][..i] == pairs[..i];
      c.PutEnt(pairs[i].0, pairs[i].1);
      i := i + 1;
    }
    assert pairs[..i] == pairs;
  }
}
