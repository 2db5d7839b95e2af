/**
 `AmapMetrics` of src/metrics/amap.rs: a key set fixed when the store is built,
 each key owning one atomic counter. Handles made by `clone` share the same
 counters. Atomics are modelled as plain mutable cells and the shared map as a
 field that never changes.
 */
module Amap {
  import opened Outcomes
  import opened Entries

  /** The error `inc` and `dec` report for a name the store was not built with. */
  const KeyNotFound := "Key not found"

  /** One `AtomicI64`. */
  class Counter {
    var value: int

    constructor (value: int)
      ensures this.value == value
    {
      this.value := value;
    }
  }

  class AmapMetrics {
    /** The shared map from name to counter; no method inserts or removes a key. */
    const data: map<string, Counter>

    /** Different names own different counters. */
    ghost predicate Valid() {
      forall a, b :: a in data && b in data && a != b ==> data[a] != data[b]
    }

    /** The current value of every counter. */
    function Values(): (vs: map<string, int>)
      reads data.Values
      ensures vs.Keys == data.Keys
      ensures forall k :: k in data ==> vs[k] == data[k].value
    {
      map k | k in data :: data[k].value
    }

    /** `AmapMetrics::new(names)`: one fresh counter at 0 per distinct name. */
    constructor (names: seq<string>)
      ensures Valid()
      ensures data.Keys == set n | n in names
      ensures forall k :: k in data ==> fresh(data[k])
      ensures Values() == map k | k in data :: 0
    {
      var m: map<string, Counter> := map[];
      var i := 0;
      while i < |names|
        invariant 0 <= i <= |names|
        invariant m.Keys == set n | n in names[..i]
        invariant forall k :: k in m ==> fresh(m[k]) && m[k].value == 0
        invariant forall a, b :: a in m && b in m && a != b ==> m[a] != m[b]
      {
        var c := new Counter(0);
        m := m[names[i] := c];
        assert names[..i + 1] == names[..i] + [names[i]];
        i := i + 1;
      }
      assert names[..i] == names;
      data := m;
    }

    /** A new handle on an existing map of counters; `clone` is its only user. */
    constructor Share(data: map<string, Counter>)
      ensures this.data == data
    {
      this.data := data;
    }

    /** `inc`: add 1 to the counter of `key`, or report that there is none and change nothing. */
    method Inc(key: string) returns (r: Result<()>)
      requires Valid()
      modifies data.Values
      ensures key !in data ==> r == Err(KeyNotFound) && Values() == old(Values())
      ensures key in data ==> r == Ok(()) && Values() == old(Values())[key := old(data[key].value) + 1]
    {
      if key !in data {
        return Err(KeyNotFound);
      }
      var counter := data[key];
      counter.value := counter.value + 1;
      r := Ok(());
    }

    /** `dec`: subtract 1 from the counter of `key`, or report that there is none and change nothing. */
    method Dec(key: string) returns (r: Result<()>)
      requires Valid()
      modifies data.Values
      ensures key !in data ==> r == Err(KeyNotFound) && Values() == old(Values())
      ensures key in data ==> r == Ok(()) && Values() == old(Values())[key := old(data[key].value) - 1]
    {
      if key !in data {
        return Err(KeyNotFound);
      }
      var counter := data[key];
      counter.value := counter.value - 1;
      r := Ok(());
    }

    /** `clone`: a new handle on the same counters. */
    method Clone() returns (c: AmapMetrics)
      ensures fresh(c)
      ensures c.data == data
      ensures c.Valid() == Valid()
    {
      c := new AmapMetrics.Share(data);
    }

    /** `Display::fmt`: one `key: value` line per counter, then the newline `writeln!` adds. */
    method Display() returns (s: string, ghost order: seq<string>)
      ensures IsListing(order, data.Keys)
      ensures s == Listed(order, Values(), "\n") + "\n"
    {
      var lines;
      lines, order := RenderEntries(Values(), "\n");
      s := lines + "\n";
    }
  }

  /** An `inc` through a clone is seen through the original handle. */
  method IncThroughClone(m: AmapMetrics, key: string)
    requires m.Valid() && key in m.data
    modifies m.data.Values
    ensures m.Values() == old(m.Values())[key := old(m.Values()[key]) + 1]
  {
    var c := m.Clone();
    var r := c.Inc(key);
  }
}
