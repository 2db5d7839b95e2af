/**
 The counter tables of src/metrics.rs and src/metrics/cmap.rs with their locks
 stripped away: a map from metric name to a signed count, updated through
 `entry(key).or_insert(0)` followed by `+= 1` or `-= 1`.
 */
module Counters {

  /** `entry(key).or_insert(0)`: the table with `key` present, at 0 if it was absent. */
  function OrInsertZero(m: map<string, int>, key: string): (r: map<string, int>)
    ensures key in r && r[key] == (if key in m then m[key] else 0)
    ensures r.Keys == m.Keys + {key}
    ensures forall k :: k in m ==> r[k] == m[k]
  {
    if key in m then m else m[key := 0]
  }

  /** `*counter += delta` on the entry of `key`, after `or_insert(0)`. */
  function AddToEntry(m: map<string, int>, key: string, delta: int): (r: map<string, int>)
    ensures r.Keys == m.Keys + {key}
    ensures r[key] == (if key in m then m[key] else 0) + delta
    ensures forall k :: k in m && k != key ==> r[k] == m[k]
  {
    var e := OrInsertZero(m, key);
    e[key := e[key] + delta]
  }

  /** What `inc(key)` leaves in the table. */
  function Incremented(m: map<string, int>, key: string): (r: map<string, int>)
    ensures r.Keys == m.Keys + {key}
    ensures r[key] == if key in m then m[key] + 1 else 1
    ensures forall k :: k in m && k != key ==> r[k] == m[k]
  {
    AddToEntry(m, key, 1)
  }

  /** What `dec(key)` leaves in the table. */
  function Decremented(m: map<string, int>, key: string): (r: map<string, int>)
    ensures r.Keys == m.Keys + {key}
    ensures r[key] == if key in m then m[key] - 1 else -1
    ensures forall k :: k in m && k != key ==> r[k] == m[k]
  {
    AddToEntry(m, key, -1)
  }

  /**
   `inc(key)` then `dec(key)` gives back the table, except that an absent key
   is now present with count 0.
   */
  lemma IncThenDec(m: map<string, int>, key: string)
    ensures Decremented(Incremented(m, key), key) == OrInsertZero(m, key)
  {
    var r, z := Decremented(Incremented(m, key), key), OrInsertZero(m, key);
    assert r.Keys == z.Keys;
    assert forall k :: k in r ==> r[k] == z[k];
  }

  /** `dec(key)` then `inc(key)` does the same. */
  lemma DecThenInc(m: map<string, int>, key: string)
    ensures Incremented(Decremented(m, key), key) == OrInsertZero(m, key)
  {
    var r, z := Incremented(Decremented(m, key), key), OrInsertZero(m, key);
    assert r.Keys == z.Keys;
    assert forall k :: k in r ==> r[k] == z[k];
  }

  /** Updates of two different keys commute. */
  lemma UpdatesCommute(m: map<string, int>, k1: string, d1: int, k2: string, d2: int)
    requires k1 != k2
    ensures AddToEntry(AddToEntry(m, k1, d1), k2, d2) == AddToEntry(AddToEntry(m, k2, d2), k1, d1)
  {
    var a, b := AddToEntry(AddToEntry(m, k1, d1), k2, d2), AddToEntry(AddToEntry(m, k2, d2), k1, d1);
    forall k | k in a
      ensures k in b && a[k] == b[k]
    {
      CommuteAt(m, k1, d1, k2, d2, k);
    }
  }

  lemma CommuteAt(m: map<string, int>, k1: string, d1: int, k2: string, d2: int, k: string)
    requires k1 != k2
    requires k in AddToEntry(AddToEntry(m, k1, d1), k2, d2)
    ensures k in AddToEntry(AddToEntry(m, k2, d2), k1, d1)
    ensures AddToEntry(AddToEntry(m, k1, d1), k2, d2)[k] == AddToEntry(AddToEntry(m, k2, d2), k1, d1)[k]
  {
    var a1, b1 := AddToEntry(m, k1, d1), AddToEntry(m, k2, d2);
    if k == k1 {
      assert (k1 in b1) == (k1 in m);
      if k1 in m {
        assert b1[k1] == m[k1];
      }
    } else if k == k2 {
      assert (k2 in a1) == (k2 in m);
      if k2 in m {
        assert a1[k2] == m[k2];
      }
    }
  }

  /** The key set only grows, by at most the one key updated. */
  lemma KeysGrowByAtMostOne(m: map<string, int>, key: string, delta: int)
    ensures m.Keys <= AddToEntry(m, key, delta).Keys
    ensures |AddToEntry(m, key, delta).Keys| <= |m.Keys| + 1
    ensures key in m <==> |AddToEntry(m, key, delta).Keys| == |m.Keys|
  {
    var r := AddToEntry(m, key, delta);
    assert r.Keys == m.Keys + {key};
    if key !in m {
      assert |m.Keys + {key}| == |m.Keys| + 1;
    } else {
      assert m.Keys + {key} == m.Keys;
    }
  }

}
