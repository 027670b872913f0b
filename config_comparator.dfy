/**
 * ConfigComparator (main.py:137-188): the delta between two flat
 * configuration dictionaries, and its application to a base dictionary.
 * Keys are JSON object keys (strings); values are any JSON values, compared
 * only for equality.
 */
module ConfigComparator {

  /** An entry of "additions": {"key", "value"}. */
  datatype Addition<V> = Addition(key: string, value: V)

  /** An entry of "updates": {"key", "from", "to"}. */
  datatype Update<V> = Update(key: string, from: V, to: V)

  /** The delta dictionary {"additions", "deletions", "updates"}. */
  datatype Delta<V> = Delta(additions: seq<Addition<V>>, deletions: seq<string>, updates: seq<Update<V>>)

  function AddedKeys<V>(adds: seq<Addition<V>>): set<string> {
    set i | 0 <= i < |adds| :: adds[i].key
  }

  function UpdatedKeys<V>(ups: seq<Update<V>>): set<string> {
    set i | 0 <= i < |ups| :: ups[i].key
  }

  function DeletedKeys(dels: seq<string>): set<string> {
    set k | k in dels
  }

  lemma AddedKeysSnoc<V>(adds: seq<Addition<V>>, a: Addition<V>)
    ensures AddedKeys(adds + [a]) == AddedKeys(adds) + {a.key}
  {
    var both := adds + [a];
    forall k | k in AddedKeys(adds) ensures k in AddedKeys(both) {
      var i :| 0 <= i < |adds| && adds[i].key == k;
      assert both[i].key == k;
    }
    assert both[|adds|].key == a.key;
  }

  lemma UpdatedKeysSnoc<V>(ups: seq<Update<V>>, u: Update<V>)
    ensures UpdatedKeys(ups + [u]) == UpdatedKeys(ups) + {u.key}
  {
    var both := ups + [u];
    forall k | k in UpdatedKeys(ups) ensures k in UpdatedKeys(both) {
      var i :| 0 <= i < |ups| && ups[i].key == k;
      assert both[i].key == k;
    }
    assert both[|ups|].key == u.key;
  }

  /** No key is listed twice within one bucket. */
  ghost predicate DistinctKeys<V>(d: Delta<V>) {
    && (forall i, j | 0 <= i < j < |d.additions| :: d.additions[i].key != d.additions[j].key)
    && (forall i, j | 0 <= i < j < |d.deletions| :: d.deletions[i] != d.deletions[j])
    && (forall i, j | 0 <= i < j < |d.updates| :: d.updates[i].key != d.updates[j].key)
  }

  /** `d` classifies exactly the keys of `done`: those only in `patched` are
      additions carrying the patched value, those only in `base` deletions,
      those in both with different values updates carrying both values;
      keys with equal values appear in no bucket. */
  ghost predicate Classifies<V>(base: map<string, V>, patched: map<string, V>, done: set<string>, d: Delta<V>) {
    && (forall k :: k in AddedKeys(d.additions) <==> k in done && k in patched && k !in base)
    && (forall k :: k in DeletedKeys(d.deletions) <==> k in done && k in base && k !in patched)
    && (forall k :: k in UpdatedKeys(d.updates) <==>
          k in done && k in base && k in patched && base[k] != patched[k])
    && (forall a | a in d.additions :: a.key in patched && a.value == patched[a.key])
    && (forall u | u in d.updates ::
          u.key in base && u.key in patched && u.from == base[u.key] && u.to == patched[u.key])
    && DistinctKeys(d)
  }

  /** `d` is a delta from `base` to `patched`, in some order of the keys. */
  ghost predicate DescribesChange<V>(base: map<string, V>, patched: map<string, V>, d: Delta<V>) {
    Classifies(base, patched, base.Keys + patched.Keys, d)
  }

  /** `ConfigComparator.compare`. The keys are taken from the set of all keys
      in an unspecified order, as Python iterates a set. */
  method Compare<V(==)>(base: map<string, V>, patched: map<string, V>) returns (delta: Delta<V>)
    ensures DescribesChange(base, patched, delta)
  {
    var additions: seq<Addition<V>> := [];
    var deletions: seq<string> := [];
    var updates: seq<Update<V>> := [];
    var allKeys := base.Keys + patched.Keys;
    var remaining := allKeys;
    while remaining != {}
      invariant remaining <= allKeys
      invariant Classifies(base, patched, allKeys - remaining, Delta(additions, deletions, updates))
      decreases remaining
    {
      var key :| key in remaining;
      ghost var before := Delta(additions, deletions, updates);
      if key in patched && key !in base {
        additions := additions + [Addition(key, patched[key])];
      } else if key in base && key !in patched {
        deletions := deletions + [key];
      } else if base[key] != patched[key] {
        updates := updates + [Update(key, base[key], patched[key])];
      }
      ClassifyStep(base, patched, allKeys - remaining, before, key, Delta(additions, deletions, updates));
      assert allKeys - (remaining - {key}) == (allKeys - remaining) + {key};
      remaining := remaining - {key};
    }
    delta := Delta(additions, deletions, updates);
  }

  /** Classifying one more key keeps the delta exact. */
  lemma ClassifyStep<V>(base: map<string, V>, patched: map<string, V>, done: set<string>, d: Delta<V>, key: string, d': Delta<V>)
    requires Classifies(base, patched, done, d)
    requires (key in base || key in patched) && key !in done
    requires key in patched && key !in base ==>
      d' == d.(additions := d.additions + [Addition(key, patched[key])])
    requires key in base && key !in patched ==>
      d' == d.(deletions := d.deletions + [key])
    requires key in base && key in patched && base[key] != patched[key] ==>
      d' == d.(updates := d.updates + [Update(key, base[key], patched[key])])
    requires key in base && key in patched && base[key] == patched[key] ==> d' == d
    ensures Classifies(base, patched, done + {key}, d')
  {
    if key in patched && key !in base {
      AddedKeysSnoc(d.additions, Addition(key, patched[key]));
      assert key !in AddedKeys(d.additions);
    } else if key in base && key !in patched {
      assert DeletedKeys(d.deletions + [key]) == DeletedKeys(d.deletions) + {key};
      assert key !in DeletedKeys(d.deletions);
    } else if base[key] != patched[key] {
      UpdatedKeysSnoc(d.updates, Update(key, base[key], patched[key]));
      assert key !in UpdatedKeys(d.updates);
    }
  }

  /** Setting each update's key to its "to" value, in list order. */
  function WithUpdates<V>(m: map<string, V>, ups: seq<Update<V>>): map<string, V> {
    if ups == [] then m
    else WithUpdates(m, ups[..|ups| - 1])[ups[|ups| - 1].key := ups[|ups| - 1].to]
  }

  /** Setting each addition's key to its value, in list order. */
  function WithAdditions<V>(m: map<string, V>, adds: seq<Addition<V>>): map<string, V> {
    if adds == [] then m
    else WithAdditions(m, adds[..|adds| - 1])[adds[|adds| - 1].key := adds[|adds| - 1].value]
  }

  /** After the updates, the keys are the old keys plus the update keys;
      each update key holds the "to" of its last update, and every other
      key keeps its value. */
  lemma {:induction false} WithUpdatesSpec<V>(m: map<string, V>, ups: seq<Update<V>>)
    ensures WithUpdates(m, ups).Keys == m.Keys + UpdatedKeys(ups)
    ensures forall k | k in m && k !in UpdatedKeys(ups) :: WithUpdates(m, ups)[k] == m[k]
    ensures forall i | 0 <= i < |ups| && (forall j | i < j < |ups| :: ups[j].key != ups[i].key) ::
      WithUpdates(m, ups)[ups[i].key] == ups[i].to
  {
    if ups != [] {
      var init := ups[..|ups| - 1];
      var u := ups[|ups| - 1];
      assert ups == init + [u];
      WithUpdatesSpec(m, init);
      UpdatedKeysSnoc(init, u);
      forall i | 0 <= i < |ups| - 1 && (forall j | i < j < |ups| :: ups[j].key != ups[i].key)
        ensures WithUpdates(m, ups)[ups[i].key] == ups[i].to
      {
        assert init[i] == ups[i];
        assert forall j | i < j < |init| :: init[j].key != init[i].key by {
          forall j | i < j < |init| ensures init[j].key != init[i].key {
            assert init[j] == ups[j];
          }
        }
      }
    }
  }

  /** After the additions, the keys are the old keys plus the addition keys;
      each addition key holds the value of its last addition, and every
      other key keeps its value. */
  lemma {:induction false} WithAdditionsSpec<V>(m: map<string, V>, adds: seq<Addition<V>>)
    ensures WithAdditions(m, adds).Keys == m.Keys + AddedKeys(adds)
    ensures forall k | k in m && k !in AddedKeys(adds) :: WithAdditions(m, adds)[k] == m[k]
    ensures forall i | 0 <= i < |adds| && (forall j | i < j < |adds| :: adds[j].key != adds[i].key) ::
      WithAdditions(m, adds)[adds[i].key] == adds[i].value
  {
    if adds != [] {
      var init := adds[..|adds| - 1];
      var a := adds[|adds| - 1];
      assert adds == init + [a];
      WithAdditionsSpec(m, init);
      AddedKeysSnoc(init, a);
      forall i | 0 <= i < |adds| - 1 && (forall j | i < j < |adds| :: adds[j].key != adds[i].key)
        ensures WithAdditions(m, adds)[adds[i].key] == adds[i].value
      {
        assert init[i] == adds[i];
        assert forall j | i < j < |init| :: init[j].key != init[i].key by {
          forall j | i < j < |init| ensures init[j].key != init[i].key {
            assert init[j] == adds[j];
          }
        }
      }
    }
  }

  /** The dictionary `apply_delta` returns: deletions first, then updates,
      then additions. */
  function Patched<V>(base: map<string, V>, d: Delta<V>): map<string, V> {
    WithAdditions(WithUpdates(base - DeletedKeys(d.deletions), d.updates), d.additions)
  }

  /** Deleting one more listed key, when present, from the dictionary with
      the earlier keys deleted. */
  lemma DeleteStep<V>(base: map<string, V>, dels: seq<string>, key: string)
    ensures var m := base - DeletedKeys(dels);
      base - DeletedKeys(dels + [key]) == if key in m then m - {key} else m
  {
    assert DeletedKeys(dels + [key]) == DeletedKeys(dels) + {key};
  }

  lemma WithUpdatesSnoc<V>(m: map<string, V>, ups: seq<Update<V>>, u: Update<V>)
    ensures WithUpdates(m, ups + [u]) == WithUpdates(m, ups)[u.key := u.to]
  {
    assert (ups + [u])[..|ups|] == ups;
  }

  lemma WithAdditionsSnoc<V>(m: map<string, V>, adds: seq<Addition<V>>, a: Addition<V>)
    ensures WithAdditions(m, adds + [a]) == WithAdditions(m, adds)[a.key := a.value]
  {
    assert (adds + [a])[..|adds|] == adds;
  }

  /** `ConfigComparator.apply_delta`: a copy of `base`, then the three loops. */
  method ApplyDelta<V>(base: map<string, V>, delta: Delta<V>) returns (result: map<string, V>)
    ensures result == Patched(base, delta)
  {
    result := base;
    for i := 0 to |delta.deletions|
      invariant result == base - DeletedKeys(delta.deletions[..i])
    {
      var key := delta.deletions[i];
      assert delta.deletions[..i + 1] == delta.deletions[..i] + [key];
      DeleteStep(base, delta.deletions[..i], key);
      if key in result {
        result := result - {key};
      }
    }
    assert delta.deletions[..|delta.deletions|] == delta.deletions;
    ghost var afterDeletions := result;
    for i := 0 to |delta.updates|
      invariant result == WithUpdates(afterDeletions, delta.updates[..i])
    {
      assert delta.updates[..i + 1] == delta.updates[..i] + [delta.updates[i]];
      WithUpdatesSnoc(afterDeletions, delta.updates[..i], delta.updates[i]);
      result := result[delta.updates[i].key := delta.updates[i].to];
    }
    assert delta.updates[..|delta.updates|] == delta.updates;
    ghost var afterUpdates := result;
    for i := 0 to |delta.additions|
      invariant result == WithAdditions(afterUpdates, delta.additions[..i])
    {
      assert delta.additions[..i + 1] == delta.additions[..i] + [delta.additions[i]];
      WithAdditionsSnoc(afterUpdates, delta.additions[..i], delta.additions[i]);
      result := result[delta.additions[i].key := delta.additions[i].value];
    }
    assert delta.additions[..|delta.additions|] == delta.additions;
  }

  /** Each key of either dictionary is in exactly one of: additions,
      deletions, updates, or unchanged (in both, with equal values). */
  lemma BucketsExclusive<V>(base: map<string, V>, patched: map<string, V>, d: Delta<V>, k: string)
    requires DescribesChange(base, patched, d)
    requires k in base || k in patched
    ensures k in AddedKeys(d.additions) <==> k in patched && k !in base
    ensures k in DeletedKeys(d.deletions) <==> k in base && k !in patched
    ensures k in UpdatedKeys(d.updates) <==> k in base && k in patched && base[k] != patched[k]
    ensures k !in AddedKeys(d.additions) + DeletedKeys(d.deletions) + UpdatedKeys(d.updates) <==>
      k in base && k in patched && base[k] == patched[k]
  {
  }

  /** The condition under which applying `d` to `start` yields `patched`:
      the listed values are those of `patched`, no key is listed twice in a
      bucket, the keys come out right, and every key the delta does not
      mention already has its value in `patched`. */
  lemma PatchedFrom<V>(start: map<string, V>, patched: map<string, V>, d: Delta<V>)
    requires forall a | a in d.additions :: a.key in patched && a.value == patched[a.key]
    requires forall u | u in d.updates :: u.key in patched && u.to == patched[u.key]
    requires DistinctKeys(d)
    requires (start.Keys - DeletedKeys(d.deletions)) + UpdatedKeys(d.updates) + AddedKeys(d.additions) == patched.Keys
    requires forall k | k in start && k !in DeletedKeys(d.deletions) + UpdatedKeys(d.updates) + AddedKeys(d.additions) ::
      start[k] == patched[k]
    ensures Patched(start, d) == patched
  {
    var r1 := start - DeletedKeys(d.deletions);
    var r2 := WithUpdates(r1, d.updates);
    WithUpdatesSpec(r1, d.updates);
    var r3 := WithAdditions(r2, d.additions);
    WithAdditionsSpec(r2, d.additions);
    forall k | k in patched ensures r3[k] == patched[k] {
      if k in AddedKeys(d.additions) {
        var i :| 0 <= i < |d.additions| && d.additions[i].key == k;
        assert d.additions[i] in d.additions;
      } else if k in UpdatedKeys(d.updates) {
        var i :| 0 <= i < |d.updates| && d.updates[i].key == k;
        assert d.updates[i] in d.updates;
      }
    }
  }

  /** The round trip: applying the delta from `base` to `patched` to `base`
      gives `patched`, whatever order the keys were classified in. */
  lemma RoundTrip<V>(base: map<string, V>, patched: map<string, V>, d: Delta<V>)
    requires DescribesChange(base, patched, d)
    ensures Patched(base, d) == patched
  {
    PatchedFrom(base, patched, d);
  }

  /** Applying a delta once more to the dictionary it produced changes
      nothing: the deleted keys are gone and every other key it lists
      already holds its target value. */
  lemma PatchIdempotent<V>(base: map<string, V>, patched: map<string, V>, d: Delta<V>)
    requires DescribesChange(base, patched, d)
    ensures Patched(Patched(base, d), d) == Patched(base, d)
  {
    RoundTrip(base, patched, d);
    assert UpdatedKeys(d.updates) + AddedKeys(d.additions) <= patched.Keys;
    assert patched.Keys - DeletedKeys(d.deletions) == patched.Keys;
    PatchedFrom(patched, patched, d);
  }

  /** The delta is not its own inverse: applied to `patched`, the delta from
      `base` to `patched` need not give back `base`. */
  lemma NotSelfInverse()
    ensures var d := Delta([], [], [Update("a", 1, 2)]);
      DescribesChange(map["a" := 1], map["a" := 2], d) && Patched(map["a" := 2], d) != map["a" := 1]
  {
    var d := Delta([], [], [Update("a", 1, 2)]);
    assert d.updates[0].key == "a";
    assert UpdatedKeys(d.updates) == {"a"};
    assert map["a" := 1].Keys + map["a" := 2].Keys == {"a"};
    assert Patched(map["a" := 2], d)["a"] == 2;
  }

  /** The delta between {"a": 1, "b": 2} and {"b": 3, "c": 4}: "c" added,
      "a" deleted, "b" updated from 2 to 3. */
  lemma ExampleDelta()
    ensures DescribesChange(map["a" := 1, "b" := 2], map["b" := 3, "c" := 4],
      Delta([Addition("c", 4)], ["a"], [Update("b", 2, 3)]))
  {
    var d := Delta([Addition("c", 4)], ["a"], [Update("b", 2, 3)]);
    assert d.additions[0].key == "c" && d.updates[0].key == "b";
    assert AddedKeys(d.additions) == {"c"};
    assert UpdatedKeys(d.updates) == {"b"};
    assert DeletedKeys(d.deletions) == {"a"};
  }

  /** A list of distinct keys has as many keys as entries. */
  lemma {:induction false} DistinctCount(ks: seq<string>)
    requires forall i, j | 0 <= i < j < |ks| :: ks[i] != ks[j]
    ensures |set k | k in ks| == |ks|
  {
    if ks != [] {
      var init := ks[..|ks| - 1];
      var last := ks[|ks| - 1];
      DistinctCount(init);
      assert forall i | 0 <= i < |init| :: init[i] == ks[i] != last;
      assert (set k | k in ks) == (set k | k in init) + {last};
    }
  }

  /** Additions with distinct keys that name only `k` are a single entry. */
  lemma SingleAddition<V>(adds: seq<Addition<V>>, k: string)
    requires forall i, j | 0 <= i < j < |adds| :: adds[i].key != adds[j].key
    requires forall k' :: k' in AddedKeys(adds) <==> k' == k
    ensures |adds| == 1 && adds[0].key == k
  {
    var ks := seq(|adds|, i requires 0 <= i < |adds| => adds[i].key);
    forall k' ensures k' in ks <==> k' in AddedKeys(adds) {
      if k' in ks {
        var i :| 0 <= i < |ks| && ks[i] == k';
        assert adds[i].key == k';
      }
      if k' in AddedKeys(adds) {
        var i :| 0 <= i < |adds| && adds[i].key == k';
        assert ks[i] == k';
      }
    }
    assert (set k' | k' in ks) == {k};
    DistinctCount(ks);
  }

  /** Updates with distinct keys that name only `k` are a single entry. */
  lemma SingleUpdate<V>(ups: seq<Update<V>>, k: string)
    requires forall i, j | 0 <= i < j < |ups| :: ups[i].key != ups[j].key
    requires forall k' :: k' in UpdatedKeys(ups) <==> k' == k
    ensures |ups| == 1 && ups[0].key == k
  {
    var ks := seq(|ups|, i requires 0 <= i < |ups| => ups[i].key);
    forall k' ensures k' in ks <==> k' in UpdatedKeys(ups) {
      if k' in ks {
        var i :| 0 <= i < |ks| && ks[i] == k';
        assert ups[i].key == k';
      }
      if k' in UpdatedKeys(ups) {
        var i :| 0 <= i < |ups| && ups[i].key == k';
        assert ks[i] == k';
      }
    }
    assert (set k' | k' in ks) == {k};
    DistinctCount(ks);
  }

  /** Distinct deletions that name only `k` are the list `[k]`. */
  lemma SingleDeletion(dels: seq<string>, k: string)
    requires forall i, j | 0 <= i < j < |dels| :: dels[i] != dels[j]
    requires forall k' :: k' in DeletedKeys(dels) <==> k' == k
    ensures dels == [k]
  {
    assert DeletedKeys(dels) == {k};
    DistinctCount(dels);
    assert dels[0] in DeletedKeys(dels);
  }

  /** Conversely, the delta listed in `ExampleDelta` is the only one: every
      order of the keys yields exactly these buckets. */
  lemma ExampleDeltaUnique(d: Delta<int>)
    requires DescribesChange(map["a" := 1, "b" := 2], map["b" := 3, "c" := 4], d)
    ensures d == Delta([Addition("c", 4)], ["a"], [Update("b", 2, 3)])
  {
    var base, patched := map["a" := 1, "b" := 2], map["b" := 3, "c" := 4];
    assert base.Keys + patched.Keys == {"a", "b", "c"};
    assert base["b"] != patched["b"];
    SingleAddition(d.additions, "c");
    assert d.additions[0] in d.additions;
    SingleUpdate(d.updates, "b");
    assert d.updates[0] in d.updates;
    SingleDeletion(d.deletions, "a");
  }

  /** The comparison and application that the program runs one after the
      other (main.py:219-224) give back the patched dictionary. */
  method CompareAndApply<V(==)>(base: map<string, V>, patched: map<string, V>) returns (result: map<string, V>)
    ensures result == patched
  {
    var delta := Compare(base, patched);
    result := ApplyDelta(base, delta);
    RoundTrip(base, patched, delta);
  }
}
