/** Python dictionaries keyed by integer IDs.  Python dicts remember the
    order in which keys were first inserted, and several of the mesh tools
    depend on that order (the order of element lists, the key found at a
    given position, "highest ID plus one" numbering), so a dictionary is a
    list of distinct keys together with the map from key to value. */
module PyDict {
  import opened Common

  datatype Dict<V> = Dict(keys: seq<int>, m: map<int, V>)
  {
    /** Keys are distinct and are exactly the keys of the map. */
    ghost predicate Valid()
    {
      Distinct(keys) && (forall k :: k in m <==> k in keys)
    }

    /** Python's `len(d)`. */
    function Size(): nat
    {
      |keys|
    }

    /** Python's `d[k] = v`: an existing key keeps its position, a new key
        goes to the end. */
    function Put(k: int, v: V): (d: Dict<V>)
      ensures Valid() ==> d.Valid()
      ensures d.m == m[k := v]
      ensures k in m ==> d.keys == keys
      ensures k !in m ==> d.keys == keys + [k]
    {
      if k in m then Dict(keys, m[k := v]) else Dict(keys + [k], m[k := v])
    }

    /** Python's `max(d.keys())` (an error in Python when d is empty). */
    function MaxKey(): (r: int)
      requires Valid() && |keys| > 0
      ensures r in m && forall k :: k in m ==> k <= r
    {
      Max(keys)
    }
  }

  function Empty<V>(): (d: Dict<V>)
    ensures d.Valid() && d.keys == [] && d.m == map[]
  {
    Dict([], map[])
  }

  /** The keys are `lo, lo + 1, ...` in insertion order. */
  predicate Consecutive<V>(d: Dict<V>, lo: int)
  {
    forall i :: 0 <= i < |d.keys| ==> d.keys[i] == lo + i
  }

  /** A dictionary whose keys are `1, 2, ..., n` in that order. */
  ghost predicate NumberedFromOne<V>(d: Dict<V>)
  {
    d.Valid() && Consecutive(d, 1)
  }

  lemma NumberedKeys<V>(d: Dict<V>, k: int)
    requires NumberedFromOne(d)
    ensures k in d.m <==> 1 <= k <= |d.keys|
  {
    if 1 <= k <= |d.keys| {
      assert d.keys[k - 1] == k;
    }
  }

  /** Writing the next ID, |d| + 1, to a dictionary numbered 1..|d| gives
      one numbered 1..|d| + 1 that keeps every earlier entry. */
  lemma NumberedPut<V>(d: Dict<V>, v: V)
    requires NumberedFromOne(d)
    ensures NumberedFromOne(d.Put(|d.keys| + 1, v))
    ensures |d.Put(|d.keys| + 1, v).keys| == |d.keys| + 1
    ensures |d.keys| + 1 !in d.m
  {
    NumberedKeys(d, |d.keys| + 1);
  }

  /** Python's `max(d.keys(), default=0)`. */
  function MaxKeyOrZero<V>(d: Dict<V>): (r: int)
    requires d.Valid()
    ensures |d.keys| == 0 ==> r == 0
    ensures |d.keys| > 0 ==> r in d.m && forall k :: k in d.m ==> k <= r
  {
    if |d.keys| == 0 then 0 else d.MaxKey()
  }

  /** In a dictionary numbered 1..n the highest key is n. */
  lemma NumberedMax<V>(d: Dict<V>)
    requires NumberedFromOne(d)
    ensures MaxKeyOrZero(d) == |d.keys|
  {
    if |d.keys| > 0 {
      NumberedKeys(d, |d.keys|);
      NumberedKeys(d, MaxKeyOrZero(d));
    }
  }

  /** Python's `list(d.values())`. */
  function Values<V>(d: Dict<V>): (r: seq<V>)
    requires d.Valid()
    ensures |r| == |d.keys|
  {
    ValuesOf(d.keys, d.m)
  }

  function ValuesOf<V>(keys: seq<int>, m: map<int, V>): (r: seq<V>)
    requires forall k :: k in keys ==> k in m
    ensures |r| == |keys|
  {
    if keys == [] then []
    else
      var k := keys[|keys| - 1];
      assert k in keys;
      assert forall j :: j in keys[..|keys| - 1] ==> j in keys;
      ValuesOf(keys[..|keys| - 1], m) + [m[k]]
  }

  /** Position i of the values is the value of the i-th key. */
  lemma {:induction false} ValuesOfAt<V>(keys: seq<int>, m: map<int, V>, i: nat)
    requires forall k :: k in keys ==> k in m
    requires i < |keys|
    ensures keys[i] in m && ValuesOf(keys, m)[i] == m[keys[i]]
  {
    assert keys[i] in keys;
    var last := keys[|keys| - 1];
    assert last in keys;
    var front := keys[..|keys| - 1];
    assert forall j :: j in front ==> j in keys;
    assert ValuesOf(keys, m) == ValuesOf(front, m) + [m[last]];
    if i < |front| {
      ValuesOfAt(front, m, i);
    }
  }

  lemma ValuesAt<V>(d: Dict<V>, i: nat)
    requires d.Valid() && i < |d.keys|
    ensures d.keys[i] in d.m && Values(d)[i] == d.m[d.keys[i]]
  {
    ValuesOfAt(d.keys, d.m, i);
  }

  /** Writing a key that is not listed leaves the listed values alone. */
  lemma {:induction false} ValuesOfFresh<V>(keys: seq<int>, m: map<int, V>, k: int, v: V)
    requires forall j :: j in keys ==> j in m
    requires k !in keys
    ensures ValuesOf(keys, m[k := v]) == ValuesOf(keys, m)
  {
    if keys != [] {
      var front := keys[..|keys| - 1];
      assert keys[|keys| - 1] in keys;
      assert forall j :: j in front ==> j in keys;
      ValuesOfFresh(front, m, k, v);
    }
  }

  /** A value written under a new key goes to the end of the values. */
  lemma ValuesPutNew<V>(d: Dict<V>, k: int, v: V)
    requires d.Valid() && k !in d.m
    ensures Values(d.Put(k, v)) == Values(d) + [v]
  {
    var d2 := d.Put(k, v);
    assert d2.keys[..|d.keys|] == d.keys;
    ValuesOfFresh(d.keys, d.m, k, v);
  }

  /** Writing ID n + 1 to a dictionary numbered 1..n appends its value. */
  lemma NumberedAppend<V>(d: Dict<V>, k: int, v: V)
    requires NumberedFromOne(d) && k == |d.keys| + 1
    ensures Values(d.Put(k, v)) == Values(d) + [v]
  {
    NumberedKeys(d, k);
    ValuesPutNew(d, k, v);
  }

  /** Every listed key has a value. */
  lemma KeysIn<V>(d: Dict<V>)
    requires d.Valid()
    ensures forall i :: 0 <= i < |d.keys| ==> d.keys[i] in d.m
  {
    forall i | 0 <= i < |d.keys| ensures d.keys[i] in d.m {
      ValuesAt(d, i);
    }
  }

  /** A second write to the same key replaces the first and keeps its
      position. */
  lemma PutOverwrite<V>(d: Dict<V>, k: int, v: V, w: V)
    ensures d.Put(k, v).Put(k, w) == d.Put(k, w)
  {
    assert d.m[k := v][k := w] == d.m[k := w];
  }
}
