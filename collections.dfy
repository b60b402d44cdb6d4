/**
 * `System.Collections.Generic.Dictionary<string, V>` as far as the backend uses it:
 * an empty constructor and `Add`, which throws instead of overwriting.
 */
module Collections {
  import opened Wrappers

  /** The message .NET gives the `ArgumentException` thrown by `Add` on a key already present. */
  function DuplicateKey(key: string): (e: Exception)
    ensures |e.Message| > |key|
    ensures e.Message[|e.Message| - |key|..] == key
  {
    Exception("An item with the same key has already been added. Key: " + key)
  }

  class Dictionary<V> {
    /** The key/value pairs; keys are unique by construction of `map`. */
    var Entries: map<string, V>

    constructor ()
      ensures Entries == map[]
    {
      Entries := map[];
    }

    /**
     * Inserts a new key. On a key already present nothing changes and the
     * exception the library would throw is returned instead.
     */
    method Add(key: string, value: V) returns (thrown: Option<Exception>)
      modifies this
      ensures key in old(Entries) ==> thrown == Some(DuplicateKey(key)) && Entries == old(Entries)
      ensures key !in old(Entries) ==> thrown == None && Entries == old(Entries)[key := value]
    {
      if key in Entries {
        thrown := Some(DuplicateKey(key));
      } else {
        Entries := Entries[key := value];
        thrown := None;
      }
    }
  }

  // ---------------------------------------------------------------------------
  // A run of `Add` calls, as a function of the pairs added
  // ---------------------------------------------------------------------------

  /** How a run of `Add` calls ends: every pair added, or one threw with these entries in place. */
  datatype Insertion<V> =
    | Inserted(Entries: map<string, V>)
    | Collided(Entries: map<string, V>, Error: Exception)

  /** Calls `Add` on an empty dictionary for each pair in order, stopping at the first that throws. */
  function AddAll<V>(pairs: seq<(string, V)>): (r: Insertion<V>)
    ensures r.Entries.Keys <= Keys(pairs)
  {
    if pairs == [] then Inserted(map[])
    else
      var before := AddAll(pairs[..|pairs| - 1]);
      var (key, value) := pairs[|pairs| - 1];
      match before
      case Collided(_, _) => before
      case Inserted(m) =>
        if key in m then Collided(m, DuplicateKey(key)) else Inserted(m[key := value])
  }

  function Keys<V>(pairs: seq<(string, V)>): set<string> {
    set i | 0 <= i < |pairs| :: pairs[i].0
  }

  predicate DistinctKeys<V>(pairs: seq<(string, V)>) {
    forall i, j :: 0 <= i < j < |pairs| ==> pairs[i].0 != pairs[j].0
  }

  lemma KeysSnoc<V>(pairs: seq<(string, V)>)
    requires pairs != []
    ensures Keys(pairs) == Keys(pairs[..|pairs| - 1]) + {pairs[|pairs| - 1].0}
  {
    var n := |pairs| - 1;
    forall k | k in Keys(pairs) ensures k in Keys(pairs[..n]) + {pairs[n].0} {
      var i :| 0 <= i < |pairs| && k == pairs[i].0;
      if i < n {
        assert k == pairs[..n][i].0;
      }
    }
    forall k | k in Keys(pairs[..n]) ensures k in Keys(pairs) {
      var i :| 0 <= i < n && k == pairs[..n][i].0;
      assert k == pairs[i].0;
    }
  }

  /** Distinct keys are as many as the pairs. */
  lemma {:induction false} DistinctKeysCount<V>(pairs: seq<(string, V)>)
    requires DistinctKeys(pairs)
    ensures |Keys(pairs)| == |pairs|
  {
    if pairs == [] {
      assert Keys(pairs) == {};
    } else {
      var n := |pairs| - 1;
      assert DistinctKeys(pairs[..n]);
      DistinctKeysCount(pairs[..n]);
      KeysSnoc(pairs);
      forall i | 0 <= i < n ensures pairs[..n][i].0 != pairs[n].0 {
        assert pairs[..n][i] == pairs[i];
      }
    }
  }

  /** The map holding each pair, a later pair replacing an earlier one with the same key. */
  function ToMap<V>(pairs: seq<(string, V)>): map<string, V> {
    if pairs == [] then map[]
    else ToMap(pairs[..|pairs| - 1])[pairs[|pairs| - 1].0 := pairs[|pairs| - 1].1]
  }

  lemma {:induction false} ToMapKeys<V>(pairs: seq<(string, V)>)
    ensures ToMap(pairs).Keys == Keys(pairs)
  {
    if pairs == [] {
      assert Keys(pairs) == {};
    } else {
      ToMapKeys(pairs[..|pairs| - 1]);
      KeysSnoc(pairs);
    }
  }

  lemma {:induction false} ToMapValues<V>(pairs: seq<(string, V)>)
    requires DistinctKeys(pairs)
    ensures forall i :: 0 <= i < |pairs| ==> pairs[i].0 in ToMap(pairs) && ToMap(pairs)[pairs[i].0] == pairs[i].1
  {
    if pairs != [] {
      var n := |pairs| - 1;
      var prefix := pairs[..n];
      assert DistinctKeys(prefix);
      ToMapValues(prefix);
      forall i | 0 <= i < n
        ensures pairs[i].0 in ToMap(pairs) && ToMap(pairs)[pairs[i].0] == pairs[i].1
      {
        assert prefix[i] == pairs[i];
      }
    }
  }

  /** With distinct keys no `Add` throws, and the dictionary ends up holding every pair. */
  lemma {:induction false} AddAllDistinct<V>(pairs: seq<(string, V)>)
    requires DistinctKeys(pairs)
    ensures AddAll(pairs) == Inserted(ToMap(pairs))
  {
    if pairs != [] {
      var n := |pairs| - 1;
      var prefix := pairs[..n];
      assert DistinctKeys(prefix);
      AddAllDistinct(prefix);
      ToMapKeys(prefix);
      forall i | 0 <= i < n ensures prefix[i].0 != pairs[n].0 {
        assert prefix[i] == pairs[i];
      }
      assert pairs[n].0 !in Keys(prefix);
    }
  }

  /**
   * With distinct keys every `Add` succeeds: one entry per pair, holding that
   * pair's value, and no other entry.
   */
  lemma AddAllDistinctContents<V>(pairs: seq<(string, V)>)
    requires DistinctKeys(pairs)
    ensures AddAll(pairs).Inserted?
    ensures AddAll(pairs).Entries.Keys == Keys(pairs)
    ensures |AddAll(pairs).Entries| == |pairs|
    ensures forall i :: 0 <= i < |pairs| ==> pairs[i].0 in AddAll(pairs).Entries && AddAll(pairs).Entries[pairs[i].0] == pairs[i].1
  {
    AddAllDistinct(pairs);
    ToMapKeys(pairs);
    ToMapValues(pairs);
    DistinctKeysCount(pairs);
    assert |ToMap(pairs)| == |ToMap(pairs).Keys|;
  }

  /** One more `Add` after a run that has not thrown. */
  lemma AddAllStep<V>(pairs: seq<(string, V)>, i: nat)
    requires i < |pairs|
    requires AddAll(pairs[..i]).Inserted?
    ensures var m := AddAll(pairs[..i]).Entries;
      AddAll(pairs[..i + 1])
        == if pairs[i].0 in m then Collided(m, DuplicateKey(pairs[i].0)) else Inserted(m[pairs[i].0 := pairs[i].1])
  {
    var upto := pairs[..i + 1];
    assert upto[..|upto| - 1] == pairs[..i];
    assert upto[|upto| - 1] == pairs[i];
  }

  /** Once an `Add` has thrown, later pairs change nothing. */
  lemma {:induction false} CollisionSticks<V>(pairs: seq<(string, V)>, k: nat)
    requires k <= |pairs|
    requires AddAll(pairs[..k]).Collided?
    ensures AddAll(pairs) == AddAll(pairs[..k])
    decreases |pairs| - k
  {
    if k < |pairs| {
      var upto := pairs[..k + 1];
      assert upto[..|upto| - 1] == pairs[..k];
      CollisionSticks(pairs, k + 1);
    } else {
      assert pairs[..k] == pairs;
    }
  }

  /**
   * A key met again at position j makes that `Add` throw: the entries of the
   * pairs before j stay, and the exception names the key.
   */
  lemma {:induction false} AddAllRepeated<V>(pairs: seq<(string, V)>, i: nat, j: nat)
    requires i < j < |pairs|
    requires DistinctKeys(pairs[..j])
    requires pairs[i].0 == pairs[j].0
    ensures AddAll(pairs[..j]).Inserted?
    ensures AddAll(pairs) == Collided(AddAll(pairs[..j]).Entries, DuplicateKey(pairs[j].0))
  {
    var prefix := pairs[..j];
    AddAllDistinct(prefix);
    ToMapKeys(prefix);
    assert pairs[j].0 == prefix[i].0;
    var upto := pairs[..j + 1];
    assert upto[..|upto| - 1] == prefix;
    assert upto[|upto| - 1] == pairs[j];
    assert AddAll(upto) == Collided(AddAll(prefix).Entries, DuplicateKey(pairs[j].0));
    CollisionSticks(pairs, j + 1);
  }

  /** A run that throws stops at a key already in the dictionary, and the exception names that key. */
  lemma {:induction false} CollisionNamesPresentKey<V>(pairs: seq<(string, V)>)
    requires AddAll(pairs).Collided?
    ensures exists key :: key in AddAll(pairs).Entries && AddAll(pairs).Error == DuplicateKey(key)
  {
    var before := AddAll(pairs[..|pairs| - 1]);
    if before.Collided? {
      CollisionNamesPresentKey(pairs[..|pairs| - 1]);
    } else {
      assert pairs[|pairs| - 1].0 in AddAll(pairs).Entries;
    }
  }

  /** A run of `Add` calls completes exactly when no key repeats. */
  lemma {:induction false} AddAllSucceedsIffDistinct<V>(pairs: seq<(string, V)>)
    ensures AddAll(pairs).Inserted? <==> DistinctKeys(pairs)
  {
    if DistinctKeys(pairs) {
      AddAllDistinct(pairs);
    } else {
      var n := |pairs| - 1;
      var prefix := pairs[..n];
      if DistinctKeys(prefix) {
        var i, j :| 0 <= i < j < |pairs| && pairs[i].0 == pairs[j].0;
        assert j == n;
        AddAllRepeated(pairs, i, n);
      } else {
        AddAllSucceedsIffDistinct(prefix);
        var upto := pairs[..n];
        CollisionSticks(pairs, n);
      }
    }
  }
}
