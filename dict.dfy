/**
 * A Python `dict` whose insertion order can be observed, as the list of its
 * entries in that order. Assigning to an existing key replaces its value in
 * place; assigning to a new key appends an entry at the end.
 */
module Dict {
  import opened Wrappers

  /** `list(d.keys())`. */
  function Keys<K, V>(d: seq<(K, V)>): seq<K>
  {
    if d == [] then [] else [d[0].0] + Keys(d[1..])
  }

  /** No key is listed twice, as in every Python dict. */
  predicate UniqueKeys<K(==), V>(d: seq<(K, V)>)
  {
    var keys := Keys(d);
    forall i, j :: 0 <= i < j < |keys| ==> keys[i] != keys[j]
  }

  /** `d[k]`: the value stored with `k`. */
  function Get<K(==), V>(d: seq<(K, V)>, k: K): (v: V)
    requires k in Keys(d)
    ensures (k, v) in d
  {
    if d[0].0 == k then d[0].1 else Get(d[1..], k)
  }

  /** `d[k] = v`. */
  function Put<K(==), V>(d: seq<(K, V)>, k: K, v: V): (r: seq<(K, V)>)
    ensures k in Keys(d) ==> Keys(r) == Keys(d)
    ensures k !in Keys(d) ==> Keys(r) == Keys(d) + [k]
    ensures k in Keys(r) && Get(r, k) == v
    ensures forall j :: j in Keys(d) && j != k ==> Get(r, j) == Get(d, j)
  {
    if d == [] then [(k, v)]
    else if d[0].0 == k then
      assert ([(k, v)] + d[1..])[1..] == d[1..];
      [(k, v)] + d[1..]
    else
      var rest := Put(d[1..], k, v);
      assert ([d[0]] + rest)[1..] == rest;
      [d[0]] + rest
  }

  /** A key is in the dict after `d[k] = v` exactly when it was before or is `k`. */
  lemma PutKeys<K, V>(d: seq<(K, V)>, k: K, v: V, j: K)
    ensures j in Keys(Put(d, k, v)) <==> j in Keys(d) || j == k
  {
  }

  /** Assigning to a key keeps a dict's keys distinct. */
  lemma PutKeepsKeysUnique<K, V>(d: seq<(K, V)>, k: K, v: V)
    requires UniqueKeys(d)
    ensures UniqueKeys(Put(d, k, v))
  {
    var keys := Keys(d);
    if k !in keys {
      var keys' := keys + [k];
      forall i, j | 0 <= i < j < |keys'| ensures keys'[i] != keys'[j] {
        if j == |keys| {
          assert keys'[i] == keys[i];
        }
      }
    }
  }

  /** Position `i` of `Keys(d)` is the key of entry `i`. */
  lemma {:induction false} KeysAt<K, V>(d: seq<(K, V)>)
    ensures |Keys(d)| == |d|
    ensures forall i :: 0 <= i < |d| ==> Keys(d)[i] == d[i].0
  {
    if d != [] {
      KeysAt(d[1..]);
    }
  }

  /** In a dict, looking up the key of entry `i` gives the value of entry `i`. */
  lemma {:induction false} GetAt<K, V>(d: seq<(K, V)>, i: nat)
    requires UniqueKeys(d) && i < |d|
    ensures d[i].0 in Keys(d) && Get(d, d[i].0) == d[i].1
  {
    KeysAt(d);
    assert Keys(d)[i] == d[i].0;
    if i > 0 {
      var keys := Keys(d[1..]);
      assert keys == Keys(d)[1..];
      assert forall a, b :: 0 <= a < b < |keys| ==> keys[a] == Keys(d)[a + 1] && keys[b] == Keys(d)[b + 1];
      GetAt(d[1..], i - 1);
    }
  }

  /** `dict(d)` as a Dafny map: the same keys, each with its value. */
  function ToMap<K(==, !new), V>(d: seq<(K, V)>): (m: map<K, V>)
    ensures forall k :: k in m <==> k in Keys(d)
    ensures forall k :: k in m ==> m[k] == Get(d, k)
  {
    if d == [] then map[] else ToMap(d[1..])[d[0].0 := d[0].1]
  }

  /**
   * The dict built by assigning, in order, every entry present in `entries`
   * (an absent entry is a step that assigns nothing).
   */
  function Collect<K(==), V>(entries: seq<Option<(K, V)>>): seq<(K, V)>
  {
    if entries == [] then []
    else
      var d := Collect(entries[..|entries| - 1]);
      match entries[|entries| - 1]
      case Some(e) => Put(d, e.0, e.1)
      case None => d
  }

  /** The entry assigns key `k`. */
  predicate Assigns<K(==), V>(entry: Option<(K, V)>, k: K)
  {
    entry.Some? && entry.value.0 == k
  }

  /** Some entry assigns `k` exactly when one before the last does or the last does. */
  lemma AssignedBeforeOrLast<K, V>(entries: seq<Option<(K, V)>>, k: K)
    requires entries != []
    ensures var n := |entries| - 1;
      (exists i :: 0 <= i < |entries| && Assigns(entries[i], k))
      <==> (exists i :: 0 <= i < n && Assigns(entries[..n][i], k)) || Assigns(entries[n], k)
  {
    var n := |entries| - 1;
    if exists i :: 0 <= i < |entries| && Assigns(entries[i], k) {
      var i :| 0 <= i < |entries| && Assigns(entries[i], k);
      if i < n {
        assert entries[..n][i] == entries[i];
      }
    }
    if exists i :: 0 <= i < n && Assigns(entries[..n][i], k) {
      var i :| 0 <= i < n && Assigns(entries[..n][i], k);
      assert entries[..n][i] == entries[i];
    }
  }

  /** A key is in the collected dict exactly when some entry assigns it. */
  lemma {:induction false} CollectKeys<K, V>(entries: seq<Option<(K, V)>>, k: K)
    ensures k in Keys(Collect(entries)) <==> exists i :: 0 <= i < |entries| && Assigns(entries[i], k)
  {
    if entries != [] {
      var n := |entries| - 1;
      CollectKeys(entries[..n], k);
      AssignedBeforeOrLast(entries, k);
      var d := Collect(entries[..n]);
      if entries[n].Some? {
        assert Collect(entries) == Put(d, entries[n].value.0, entries[n].value.1);
        PutKeys(d, entries[n].value.0, entries[n].value.1, k);
      }
    }
  }

  /** A key's value in the collected dict is the one its last assigning entry gives. */
  lemma {:induction false} CollectLastWins<K, V>(entries: seq<Option<(K, V)>>, i: nat)
    requires i < |entries| && entries[i].Some?
    requires forall j :: i < j < |entries| ==> entries[j].None? || entries[j].value.0 != entries[i].value.0
    ensures entries[i].value.0 in Keys(Collect(entries))
    ensures Get(Collect(entries), entries[i].value.0) == entries[i].value.1
  {
    var n := |entries| - 1;
    if i < n {
      var init := entries[..n];
      forall j | i < j < |init|
        ensures init[j].None? || init[j].value.0 != init[i].value.0
      {
        assert init[j] == entries[j];
      }
      CollectLastWins(init, i);
    }
  }

  /** The collected dict lists each key once. */
  lemma {:induction false} CollectUnique<K, V>(entries: seq<Option<(K, V)>>)
    ensures UniqueKeys(Collect(entries))
  {
    if entries != [] {
      var init := entries[..|entries| - 1];
      CollectUnique(init);
      match entries[|entries| - 1] {
        case Some(e) => PutKeepsKeysUnique(Collect(init), e.0, e.1);
        case None =>
      }
    }
  }
}
