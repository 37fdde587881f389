/**
 * The TypeScript backend's in-memory table store (packages/backend/src/store.ts).
 * The clock (`Date.now()`, `new Date()`) is read by the caller and passed in
 * as milliseconds; the generated id (`generateId`) is passed in as well.
 */
module StoreTs {
  import opened Wrappers
  import opened CsvSpec
  import opened CacheSpec

  class CsvStore {
    /** The `data` map of the source, id to stored entry. */
    var data: map<string, StoredCsv>

    /** One hour, in milliseconds. */
    const MaxAgeMs: int := 1000 * 60 * 60

    /**
     * Every entry sits under its own `id` field, as `store` files it. This
     * records the shape of the map; no answer of the store depends on it.
     */
    ghost predicate Valid()
      reads this
    {
      IdsMatch(data)
    }

    constructor()
      ensures Valid() && data == map[]
    {
      data := map[];
    }

    /**
     * Files `csvData` under `id`, stamped `uploadedAt`, then sweeps at `now`
     * (the source reads the clock once for the stamp and once for the sweep).
     */
    method Store(csvData: CsvData, id: string, uploadedAt: int, now: int) returns (r: string)
      requires Valid()
      modifies this
      ensures Valid()
      ensures r == id
      ensures data == Sweep(old(data)[id := StoredCsv(id, csvData, uploadedAt)], now, MaxAgeMs)
    {
      IdsMatchFiled(data, StoredCsv(id, csvData, uploadedAt));
      data := data[id := StoredCsv(id, csvData, uploadedAt)];
      Cleanup(now);
      return id;
    }

    /** The table filed under `id` at time `now`; an expired entry is deleted and reported absent. */
    method Get(id: string, now: int) returns (r: Option<CsvData>)
      requires Valid()
      modifies this
      ensures Valid()
      ensures id !in old(data) ==> r == None && data == old(data)
      ensures id in old(data) && Expired(old(data)[id], now, MaxAgeMs) ==> r == None && data == old(data) - {id}
      ensures id in old(data) && !Expired(old(data)[id], now, MaxAgeMs) ==> r == Some(old(data)[id].data) && data == old(data)
      ensures r == Lookup(old(data), id, now, MaxAgeMs) && data == AfterGet(old(data), id, now, MaxAgeMs)
    {
      if id !in data {
        return None;
      }
      var entry := data[id];
      if now - entry.uploadedAt > MaxAgeMs {
        data := data - {id};
        return None;
      }
      return Some(entry.data);
    }

    /** Deletes, one by one, every entry that is expired at `now`. */
    method Cleanup(now: int)
      requires Valid()
      modifies this
      ensures Valid()
      ensures data == Sweep(old(data), now, MaxAgeMs)
    {
      ghost var start := data;
      var pending := data.Keys;
      while pending != {}
        invariant pending <= start.Keys
        invariant data == SweepExcept(start, now, MaxAgeMs, pending)
        decreases |pending|
      {
        var id :| id in pending;
        SweepExceptStep(start, now, MaxAgeMs, pending, id);
        var entry := data[id];
        if now - entry.uploadedAt > MaxAgeMs {
          data := data - {id};
        }
        pending := pending - {id};
      }
      SweepExceptNone(start, now, MaxAgeMs);
    }
  }

  /** Filing a table and asking for it back with no time passing returns it (`get(store(d))`). */
  method StoreThenGet(s: CsvStore, csvData: CsvData, id: string, now: int) returns (r: Option<CsvData>)
    requires s.Valid()
    modifies s
    ensures r == Some(csvData)
    ensures id in s.data && s.data[id].data == csvData
  {
    var stored := s.Store(csvData, id, now, now);
    r := s.Get(stored, now);
  }
}
