/**
 * The Python backend's in-memory table store (packages/backend/app/storage.py).
 * `datetime.utcnow()` is read by the caller and passed in as microseconds
 * since a fixed epoch; the generated id (`generate_id`) is passed in as well.
 */
module StoragePy {
  import opened Wrappers
  import opened CsvSpec
  import opened CacheSpec

  /** `timedelta(hours=1)` in microseconds. */
  const OneHour: int := 60 * 60 * 1000000

  class CsvStore {
    /** The `_data` dict of the source, id to stored entry. */
    var entries: map<string, StoredCsv>
    /** `_max_age`, set once by the constructor. */
    const maxAge: int

    /** Every entry sits under its own `id` field, as `store` files it, and `_max_age` is one hour. */
    ghost predicate Valid()
      reads this
    {
      IdsMatch(entries) && maxAge == OneHour
    }

    constructor()
      ensures Valid() && entries == map[]
    {
      entries := map[];
      maxAge := OneHour;
    }

    /**
     * Files `data` under `id`, stamped `uploadedAt`, then sweeps at `now`
     * (the source reads the clock once for the stamp and once for the sweep).
     */
    method Store(data: CsvData, id: string, uploadedAt: int, now: int) returns (r: string)
      requires Valid()
      modifies this
      ensures Valid()
      ensures r == id
      ensures entries == Sweep(old(entries)[id := StoredCsv(id, data, uploadedAt)], now, OneHour)
    {
      IdsMatchFiled(entries, StoredCsv(id, data, uploadedAt));
      entries := entries[id := StoredCsv(id, data, uploadedAt)];
      Cleanup(now);
      return id;
    }

    /** The table filed under `id` at time `now`; an expired entry is deleted and reported absent. */
    method Get(id: string, now: int) returns (r: Option<CsvData>)
      requires Valid()
      modifies this
      ensures Valid()
      ensures id !in old(entries) ==> r == None && entries == old(entries)
      ensures id in old(entries) && Expired(old(entries)[id], now, OneHour) ==> r == None && entries == old(entries) - {id}
      ensures id in old(entries) && !Expired(old(entries)[id], now, OneHour) ==> r == Some(old(entries)[id].data) && entries == old(entries)
      ensures r == Lookup(old(entries), id, now, OneHour) && entries == AfterGet(old(entries), id, now, OneHour)
    {
      if id !in entries {
        return None;
      }
      var entry := entries[id];
      if now - entry.uploadedAt > maxAge {
        entries := entries - {id};
        return None;
      }
      return Some(entry.data);
    }

    /** Collects the ids expired at `now`, then deletes them one by one. */
    method Cleanup(now: int)
      requires Valid()
      modifies this
      ensures Valid()
      ensures entries == Sweep(old(entries), now, OneHour)
    {
      ghost var start := entries;
      var expired := set id | id in entries && now - entries[id].uploadedAt > maxAge;
      var pending := expired;
      while pending != {}
        invariant pending <= expired
        invariant entries == start - (expired - pending)
        decreases |pending|
      {
        var id :| id in pending;
        RemoveOneMore(start, expired - pending, id);
        assert expired - (pending - {id}) == (expired - pending) + {id};
        entries := entries - {id};
        pending := pending - {id};
      }
      assert expired == ExpiredIds(start, now, OneHour);
      SweepIsRemoval(start, now, OneHour);
      IdsMatchSwept(start, now, OneHour);
    }
  }

  /** Filing a table and asking for it back with no time passing returns it (`get(store(d))`). */
  method StoreThenGet(s: CsvStore, data: CsvData, id: string, now: int) returns (r: Option<CsvData>)
    requires s.Valid()
    modifies s
    ensures r == Some(data)
    ensures id in s.entries && s.entries[id].data == data
  {
    var stored := s.Store(data, id, now, now);
    r := s.Get(stored, now);
  }
}
