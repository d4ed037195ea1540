/** A map kept as a sequence of keys and a sequence of values; `at` notes where each key is. */
module KeyedTable {

  ghost predicate Entry<K, V>(keys: seq<K>, vals: seq<V>, m: map<K, V>, at: map<K, int>, i: int)
    requires 0 <= i < |keys| == |vals|
  {
    keys[i] in m && m[keys[i]] == vals[i] && keys[i] in at && at[keys[i]] == i
  }

  ghost predicate Position<K>(keys: seq<K>, at: map<K, int>, k: K)
    requires k in at
  {
    0 <= at[k] < |keys| && keys[at[k]] == k
  }

  ghost predicate Keyed<K, V>(keys: seq<K>, vals: seq<V>, m: map<K, V>, at: map<K, int>) {
    && |keys| == |vals| == |m|
    && at.Keys == m.Keys
    && (forall i {:trigger Entry(keys, vals, m, at, i)} :: 0 <= i < |keys| ==> Entry(keys, vals, m, at, i))
    && (forall k {:trigger Position(keys, at, k)} :: k in at ==> Position(keys, at, k))
  }

  lemma KeysDiffer<K, V>(keys: seq<K>, vals: seq<V>, m: map<K, V>, at: map<K, int>, i: int, j: int)
    requires Keyed(keys, vals, m, at) && 0 <= i < j < |keys|
    ensures keys[i] != keys[j]
  {
    assert Entry(keys, vals, m, at, i) && Entry(keys, vals, m, at, j);
  }

  lemma KeysAreInMap<K, V>(keys: seq<K>, vals: seq<V>, m: map<K, V>, at: map<K, int>, k: K)
    requires Keyed(keys, vals, m, at)
    ensures k in m <==> k in keys
    ensures forall i :: 0 <= i < |keys| && keys[i] == k ==> k in m && m[k] == vals[i]
  {
    forall i | 0 <= i < |keys| && keys[i] == k
      ensures k in m && m[k] == vals[i]
    {
      assert Entry(keys, vals, m, at, i);
    }
    if k in m {
      assert Position(keys, at, k);
    }
  }

  /** The map is determined by the two sequences. */
  lemma MapIsDetermined<K, V>(keys: seq<K>, vals: seq<V>, m1: map<K, V>, at1: map<K, int>,
                              m2: map<K, V>, at2: map<K, int>)
    requires Keyed(keys, vals, m1, at1) && Keyed(keys, vals, m2, at2)
    ensures m1 == m2
  {
    forall k
      ensures k in m1 <==> k in m2
      ensures k in m1 && k in m2 ==> m1[k] == m2[k]
    {
      KeysAreInMap(keys, vals, m1, at1, k);
      KeysAreInMap(keys, vals, m2, at2, k);
    }
  }

  lemma AddKey<K, V>(keys: seq<K>, vals: seq<V>, m: map<K, V>, at: map<K, int>, k: K, v: V)
    requires Keyed(keys, vals, m, at) && k !in m
    ensures Keyed(keys + [k], vals + [v], m[k := v], at[k := |keys|])
  {
    var keys', vals', m', at' := keys + [k], vals + [v], m[k := v], at[k := |keys|];
    assert m'.Keys == m.Keys + {k};
    forall i | 0 <= i < |keys'|
      ensures Entry(keys', vals', m', at', i)
    {
      assert i < |keys| ==> Entry(keys, vals, m, at, i);
    }
    forall j | j in at'
      ensures Position(keys', at', j)
    {
      assert j in at ==> Position(keys, at, j);
    }
  }

  lemma ChangeValue<K, V>(keys: seq<K>, vals: seq<V>, m: map<K, V>, at: map<K, int>, n: int, v: V)
    requires Keyed(keys, vals, m, at) && 0 <= n < |keys|
    ensures Keyed(keys, vals[n := v], m[keys[n] := v], at)
  {
    assert Entry(keys, vals, m, at, n);
    var vals', m' := vals[n := v], m[keys[n] := v];
    assert m'.Keys == m.Keys;
    forall i | 0 <= i < |keys|
      ensures Entry(keys, vals', m', at, i)
    {
      assert Entry(keys, vals, m, at, i);
    }
  }

  /** Element `n` replaced by the last one, and the last one dropped. */
  function SwapOut<T>(xs: seq<T>, n: int): seq<T>
    requires 0 <= n < |xs|
  {
    xs[n := xs[|xs| - 1]][..|xs| - 1]
  }

  lemma DropKeepsEntry<K, V>(keys: seq<K>, vals: seq<V>, m: map<K, V>, at: map<K, int>, n: int, i: int)
    requires Keyed(keys, vals, m, at) && 0 <= n < |keys| && 0 <= i < |keys| - 1
    ensures Entry(SwapOut(keys, n), SwapOut(vals, n), m - {keys[n]}, at[keys[|keys| - 1] := n] - {keys[n]}, i)
  {
    var last := |keys| - 1;
    assert Entry(keys, vals, m, at, n) && Entry(keys, vals, m, at, last) && Entry(keys, vals, m, at, i);
  }

  lemma DropKeepsPosition<K, V>(keys: seq<K>, vals: seq<V>, m: map<K, V>, at: map<K, int>, n: int, k: K)
    requires Keyed(keys, vals, m, at) && 0 <= n < |keys|
    requires k in at && k != keys[n]
    ensures var at' := at[keys[|keys| - 1] := n] - {keys[n]}; k in at' && Position(SwapOut(keys, n), at', k)
  {
    assert Position(keys, at, k);
    assert Entry(keys, vals, m, at, |keys| - 1);
  }

  lemma DropKey<K, V>(keys: seq<K>, vals: seq<V>, m: map<K, V>, at: map<K, int>, n: int)
    requires Keyed(keys, vals, m, at) && 0 <= n < |keys|
    ensures Keyed(SwapOut(keys, n), SwapOut(vals, n), m - {keys[n]}, at[keys[|keys| - 1] := n] - {keys[n]})
  {
    var last := |keys| - 1;
    var keys', vals', m', at' := SwapOut(keys, n), SwapOut(vals, n), m - {keys[n]}, at[keys[last] := n] - {keys[n]};
    assert Entry(keys, vals, m, at, n) && Entry(keys, vals, m, at, last);
    assert m'.Keys == m.Keys - {keys[n]};
    assert at'.Keys == at.Keys - {keys[n]};
    forall i | 0 <= i < |keys'|
      ensures Entry(keys', vals', m', at', i)
    {
      DropKeepsEntry(keys, vals, m, at, n, i);
    }
    forall k | k in at'
      ensures Position(keys', at', k)
    {
      DropKeepsPosition(keys, vals, m, at, n, k);
    }
  }
}
