/** `ConfigDict` (src/july/rcmod.py): a dictionary whose item assignment
    only updates keys it already has and raises KeyError for any other key,
    naming the key and listing the valid keys in insertion order. */
module RcMod {
  import opened Base

  /** A Python dict with string keys (matplotlib's rcParams names): its keys
      in insertion order and the key-value mapping. */
  datatype ConfigDict<V> = ConfigDict(order: seq<string>, entries: map<string, V>)

  /** The keys are listed once each, and exactly the mapped keys are listed. */
  predicate Valid<V>(d: ConfigDict<V>) {
    && (forall i, j :: 0 <= i < j < |d.order| ==> d.order[i] != d.order[j])
    && (forall k :: k in d.order ==> k in d.entries)
    && (forall k :: k in d.entries ==> k in d.order)
  }

  /** The KeyError of `__setitem__`: the rejected key and `[*self.keys()]`. */
  datatype KeyError = KeyError(key: string, validKeys: seq<string>)

  /** `d[key] = val`: the dictionary afterwards, and the KeyError raised, if any. */
  function SetItem<V>(d: ConfigDict<V>, key: string, val: V): (r: (ConfigDict<V>, Option<KeyError>))
    requires Valid(d)
    ensures Valid(r.0) && r.0.order == d.order && r.0.entries.Keys == d.entries.Keys
    ensures r.1.None? <==> key in d.entries
    ensures r.1.Some? ==> r.0 == d && r.1.value == KeyError(key, d.order)
    ensures r.1.Some? ==> forall k :: k in r.1.value.validKeys <==> k in d.entries
    ensures r.1.None? ==> r.0.entries[key] == val
    ensures r.1.None? ==> forall k :: k in d.entries && k != key ==> r.0.entries[k] == d.entries[k]
  {
    if key !in d.entries then (d, Some(KeyError(key, d.order)))
    else (d.(entries := d.entries[key := val]), None)
  }

  /** A run of assignments, one after the other, stopping at the first that
      raises; on KeyError the dictionary keeps the assignments made before. */
  function SetItems<V>(d: ConfigDict<V>, assignments: seq<(string, V)>): (r: (ConfigDict<V>, Option<KeyError>))
    requires Valid(d)
    ensures Valid(r.0) && r.0.order == d.order && r.0.entries.Keys == d.entries.Keys
    ensures r.1.None? <==> forall i :: 0 <= i < |assignments| ==> assignments[i].0 in d.entries
    ensures r.1.Some? ==> r.1.value.key !in d.entries && r.1.value.validKeys == d.order
    decreases |assignments|
  {
    if |assignments| == 0 then (d, None)
    else
      var (k, v) := assignments[0];
      var (d', e) := SetItem(d, k, v);
      if e.Some? then (d, e)
      else
        var r := SetItems(d', assignments[1..]);
        assert forall i :: 1 <= i < |assignments| ==> assignments[i] == assignments[1..][i - 1];
        r
  }

  /** The value each key holds after a run of successful assignments: the
      last assignment to it, or its old value. */
  function LastAssigned<V>(previous: V, key: string, assignments: seq<(string, V)>): V {
    if |assignments| == 0 then previous
    else if assignments[|assignments| - 1].0 == key then assignments[|assignments| - 1].1
    else LastAssigned(previous, key, assignments[..|assignments| - 1])
  }

  /** After a run of assignments to existing keys every key holds the last
      value assigned to it, or keeps its value. */
  lemma {:induction false} SetItemsValues<V>(d: ConfigDict<V>, assignments: seq<(string, V)>, k: string)
    requires Valid(d) && k in d.entries
    requires forall i :: 0 <= i < |assignments| ==> assignments[i].0 in d.entries
    ensures SetItems(d, assignments).0.entries[k] == LastAssigned(d.entries[k], k, assignments)
    decreases |assignments|
  {
    if |assignments| > 0 {
      var d' := SetItem(d, assignments[0].0, assignments[0].1).0;
      var rest := assignments[1..];
      SetItemsStep(d, assignments);
      SetItemsValues(d', rest, k);
      LastAssignedFirst(d.entries[k], k, assignments);
    }
  }

  /** The first assignment, to an existing key, then the rest. */
  lemma SetItemsStep<V>(d: ConfigDict<V>, assignments: seq<(string, V)>)
    requires Valid(d) && |assignments| > 0
    requires forall i :: 0 <= i < |assignments| ==> assignments[i].0 in d.entries
    ensures var d' := SetItem(d, assignments[0].0, assignments[0].1).0;
      && SetItems(d, assignments) == SetItems(d', assignments[1..])
      && d'.entries.Keys == d.entries.Keys
      && forall i :: 0 <= i < |assignments| - 1 ==> assignments[1..][i].0 in d'.entries
  {
  }

  /** The first assignment seen as an update of the old value. */
  lemma LastAssignedFirst<V>(v: V, key: string, assignments: seq<(string, V)>)
    requires |assignments| > 0
    ensures LastAssigned(v, key, assignments)
      == LastAssigned(if assignments[0].0 == key then assignments[0].1 else v, key, assignments[1..])
  {
    assert [assignments[0]] + assignments[1..] == assignments;
    LastAssignedCons(v, key, assignments[0], assignments[1..]);
  }

  /** Splitting off the first assignment. */
  lemma {:induction false} LastAssignedCons<V>(v: V, key: string, a: (string, V), rest: seq<(string, V)>)
    ensures LastAssigned(v, key, [a] + rest) == LastAssigned(if a.0 == key then a.1 else v, key, rest)
    decreases |rest|
  {
    if |rest| > 0 {
      var n := |rest| - 1;
      assert ([a] + rest)[..|rest|] == [a] + rest[..n];
      LastAssignedCons(v, key, a, rest[..n]);
    }
  }

  /** Assigning a key twice keeps only the second value. */
  lemma SetItemTwice<V>(d: ConfigDict<V>, key: string, a: V, b: V)
    requires Valid(d) && key in d.entries
    ensures SetItem(SetItem(d, key, a).0, key, b) == SetItem(d, key, b)
  {
    assert SetItem(SetItem(d, key, a).0, key, b).0.entries == SetItem(d, key, b).0.entries;
  }

  /** Assigning a key its current value changes nothing. */
  lemma SetItemSame<V>(d: ConfigDict<V>, key: string)
    requires Valid(d) && key in d.entries
    ensures SetItem(d, key, d.entries[key]) == (d, None)
  {
    assert d.entries[key := d.entries[key]] == d.entries;
  }
}
