/**
 `Metrics` of src/metrics.rs: a table of named signed counters behind a
 read-write lock. The lock is not modelled, so the table is a plain field.
 */
module Metrics {
  import opened Outcomes
  import opened Counters
  import opened Entries

  class Metrics {
    var data: map<string, int>

    /** `Metrics::new`: an empty table. */
    constructor ()
      ensures data == map[]
    {
      data := map[];
    }

    /** `inc`: insert `key` at 0 when absent, then add 1; never fails. */
    method Inc(key: string) returns (r: Result<()>)
      modifies this
      ensures r == Ok(())
      ensures data == Incremented(old(data), key)
    {
      data := OrInsertZero(data, key);
      data := data[key := data[key] + 1];
      r := Ok(());
    }

    /** `dec`: insert `key` at 0 when absent, then subtract 1; never fails. */
    method Dec(key: string) returns (r: Result<()>)
      modifies this
      ensures r == Ok(())
      ensures data == Decremented(old(data), key)
    {
      data := OrInsertZero(data, key);
      data := data[key := data[key] - 1];
      r := Ok(());
    }

    /** `snapshot`: a copy of the current table; the store is left as it is. */
    method Snapshot() returns (r: Result<map<string, int>>)
      ensures r.Ok? && r.value == data
    {
      r := Ok(data);
    }

    /** `Display::fmt`: one `key: value, ` fragment per entry, in the table's iteration order. */
    method Display() returns (s: string, ghost order: seq<string>)
      ensures IsListing(order, data.Keys)
      ensures s == Listed(order, data, ", ")
    {
      s, order := RenderEntries(data, ", ");
    }
  }

  /** `inc(k)` then `dec(k)` on a store: every count is back, and `k` is now present. */
  method IncThenDecOnStore(m: Metrics, key: string)
    modifies m
    ensures m.data == OrInsertZero(old(m.data), key)
  {
    var _ := m.Inc(key);
    var _ := m.Dec(key);
    IncThenDec(old(m.data), key);
  }
}
