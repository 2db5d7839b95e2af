/**
 `CmapMetrics` of src/metrics/cmap.rs: the same table of named signed counters,
 held in a sharded concurrent map. Sharding is not modelled, so the table is a
 plain field.
 */
module Cmap {
  import opened Outcomes
  import opened Counters
  import opened Entries

  class CmapMetrics {
    var data: map<string, int>

    /** `CmapMetrics::new`: an empty table. */
    constructor ()
      ensures data == map[]
    {
      data := map[];
    }

    /** `inc`: insert `key` at 0 when absent, then add 1; always `Ok`. */
    method Inc(key: string) returns (r: Result<()>)
      modifies this
      ensures r == Ok(())
      ensures data == Incremented(old(data), key)
    {
      data := OrInsertZero(data, key);
      data := data[key := data[key] + 1];
      r := Ok(());
    }

    /** `dec`: insert `key` at 0 when absent, then subtract 1; always `Ok`. */
    method Dec(key: string) returns (r: Result<()>)
      modifies this
      ensures r == Ok(())
      ensures data == Decremented(old(data), key)
    {
      data := OrInsertZero(data, key);
      data := data[key := data[key] - 1];
      r := Ok(());
    }

    /** `Display::fmt`: one `key: value` line per entry, in the map's iteration order. */
    method Display() returns (s: string, ghost order: seq<string>)
      ensures IsListing(order, data.Keys)
      ensures s == Listed(order, data, "\n")
    {
      s, order := RenderEntries(data, "\n");
    }
  }
}
