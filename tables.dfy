/** Python dict comprehensions over ordered (key, value) pairs: a later pair
    with the same key overwrites the earlier one. */
module Tables {

  /** Index i holds the last occurrence of keys[i]. */
  predicate IsLastOccurrence<K(==)>(keys: seq<K>, i: int)
    requires 0 <= i < |keys|
  {
    forall j :: i < j < |keys| ==> keys[j] != keys[i]
  }

  predicate Distinct<K(==)>(keys: seq<K>)
  {
    forall i, j :: 0 <= i < j < |keys| ==> keys[i] != keys[j]
  }

  /** `{k: v for k, v in zip(keys, vals)}` */
  function LastWins<K(==), V>(keys: seq<K>, vals: seq<V>): (m: map<K, V>)
    requires |keys| == |vals|
    ensures m.Keys == set k | k in keys
    decreases |keys|
  {
    if |keys| == 0 then map[]
    else
      var n := |keys| - 1;
      var before := LastWins(keys[..n], vals[..n]);
      assert (set k | k in keys) == (set k | k in keys[..n]) + {keys[n]} by {
        assert keys == keys[..n] + [keys[n]];
      }
      before[keys[n] := vals[n]]
  }

  /** The value of a key is the one paired with its last occurrence. */
  lemma {:induction false} LastWinsAt<K, V>(keys: seq<K>, vals: seq<V>, i: int)
    requires |keys| == |vals| && 0 <= i < |keys| && IsLastOccurrence(keys, i)
    ensures keys[i] in LastWins(keys, vals) && LastWins(keys, vals)[keys[i]] == vals[i]
    decreases |keys|
  {
    var n := |keys| - 1;
    if i < n {
      assert IsLastOccurrence(keys[..n], i) by {
        forall j | i < j < n ensures keys[..n][j] != keys[..n][i] {
          assert keys[..n][j] == keys[j];
        }
      }
      LastWinsAt(keys[..n], vals[..n], i);
    }
  }

  /** With distinct keys every pair survives. */
  lemma LastWinsDistinct<K, V>(keys: seq<K>, vals: seq<V>, i: int)
    requires |keys| == |vals| && Distinct(keys) && 0 <= i < |keys|
    ensures keys[i] in LastWins(keys, vals) && LastWins(keys, vals)[keys[i]] == vals[i]
  {
    assert IsLastOccurrence(keys, i);
    LastWinsAt(keys, vals, i);
  }
}
