/**
 * The rules both table stores follow (packages/backend/src/store.ts and
 * packages/backend/app/storage.py): an entry older than the maximum age is
 * expired, with a strict comparison; a sweep drops exactly the expired
 * entries; a lookup answers the table of a live entry and evicts an
 * expired one. Times are integers in the store's own clock unit.
 */
module CacheSpec {
  import opened Wrappers
  import opened CsvSpec

  datatype StoredCsv = StoredCsv(id: string, data: CsvData, uploadedAt: int)

  /** Strictly older than `maxAge` at time `now`: an entry exactly `maxAge` old is still live. */
  predicate Expired(e: StoredCsv, now: int, maxAge: int) {
    now - e.uploadedAt > maxAge
  }

  /** Every entry is filed under its own id. */
  predicate IdsMatch(m: map<string, StoredCsv>) {
    forall id :: id in m ==> m[id].id == id
  }

  /** The entries that are live at `now`. */
  function Sweep(m: map<string, StoredCsv>, now: int, maxAge: int): map<string, StoredCsv> {
    map id | id in m && !Expired(m[id], now, maxAge) :: m[id]
  }

  /** The entries that are live at `now`, plus those in `pending` whatever their age: a sweep still under way. */
  function SweepExcept(m: map<string, StoredCsv>, now: int, maxAge: int, pending: set<string>): map<string, StoredCsv> {
    map id | id in m && (id in pending || !Expired(m[id], now, maxAge)) :: m[id]
  }

  /** What `get` answers: the table of a live entry, nothing for a missing or expired one. */
  function Lookup(m: map<string, StoredCsv>, id: string, now: int, maxAge: int): Option<CsvData> {
    if id !in m || Expired(m[id], now, maxAge) then None else Some(m[id].data)
  }

  /** The map after `get`: an expired entry is deleted, nothing else changes. */
  function AfterGet(m: map<string, StoredCsv>, id: string, now: int, maxAge: int): map<string, StoredCsv> {
    if id in m && Expired(m[id], now, maxAge) then m - {id} else m
  }

  /** A sweep keeps exactly the live entries, unchanged, and so leaves nothing expired. */
  lemma SweepKeepsExactlyLive(m: map<string, StoredCsv>, now: int, maxAge: int)
    ensures forall id :: id in Sweep(m, now, maxAge) <==> id in m && !Expired(m[id], now, maxAge)
    ensures forall id :: id in Sweep(m, now, maxAge) ==> Sweep(m, now, maxAge)[id] == m[id]
    ensures forall id :: id in Sweep(m, now, maxAge) ==> !Expired(Sweep(m, now, maxAge)[id], now, maxAge)
  {
  }

  /** The ids of the entries expired at `now`. */
  function ExpiredIds(m: map<string, StoredCsv>, now: int, maxAge: int): set<string> {
    set id | id in m && Expired(m[id], now, maxAge)
  }

  /** Sweeping is deleting the expired ids. */
  lemma SweepIsRemoval(m: map<string, StoredCsv>, now: int, maxAge: int)
    ensures Sweep(m, now, maxAge) == m - ExpiredIds(m, now, maxAge)
  {
  }

  /** Deleting a set of ids and then one more is deleting them all at once. */
  lemma RemoveOneMore(m: map<string, StoredCsv>, gone: set<string>, id: string)
    ensures (m - gone) - {id} == m - (gone + {id})
  {
  }

  /** Once every pending entry has been looked at, the sweep under way is the sweep. */
  lemma SweepExceptNone(m: map<string, StoredCsv>, now: int, maxAge: int)
    ensures SweepExcept(m, now, maxAge, {}) == Sweep(m, now, maxAge)
  {
  }

  /** Looking at one pending entry: it is deleted when expired and kept otherwise. */
  lemma SweepExceptStep(m: map<string, StoredCsv>, now: int, maxAge: int, pending: set<string>, id: string)
    requires id in pending && id in m
    ensures SweepExcept(m, now, maxAge, pending - {id})
         == if Expired(m[id], now, maxAge) then SweepExcept(m, now, maxAge, pending) - {id}
            else SweepExcept(m, now, maxAge, pending)
  {
    var before := SweepExcept(m, now, maxAge, pending);
    var after := SweepExcept(m, now, maxAge, pending - {id});
    if Expired(m[id], now, maxAge) {
      assert after.Keys == before.Keys - {id};
    } else {
      assert after.Keys == before.Keys;
    }
  }

  /** Sweeping twice at the same time is sweeping once. */
  lemma SweepIdempotent(m: map<string, StoredCsv>, now: int, maxAge: int)
    ensures Sweep(Sweep(m, now, maxAge), now, maxAge) == Sweep(m, now, maxAge)
  {
    var once := Sweep(m, now, maxAge);
    assert Sweep(once, now, maxAge).Keys == once.Keys;
  }

  /** An entry expired at one time is expired at every later time. */
  lemma ExpiryMonotone(e: StoredCsv, t1: int, t2: int, maxAge: int)
    requires t1 <= t2 && Expired(e, t1, maxAge)
    ensures Expired(e, t2, maxAge)
  {
  }

  /** A sweep is invisible to every lookup at the same or a later time: it only drops entries `get` would refuse. */
  lemma SweepInvisible(m: map<string, StoredCsv>, sweepTime: int, now: int, maxAge: int, id: string)
    requires sweepTime <= now
    ensures Lookup(Sweep(m, sweepTime, maxAge), id, now, maxAge) == Lookup(m, id, now, maxAge)
  {
    if id in m && Expired(m[id], sweepTime, maxAge) {
      ExpiryMonotone(m[id], sweepTime, now, maxAge);
    }
  }

  /** Looking an entry up right after filing it, with no time passing, finds its table. */
  lemma StoreThenLookup(m: map<string, StoredCsv>, id: string, d: CsvData, now: int, maxAge: int)
    requires maxAge >= 0
    ensures Lookup(Sweep(m[id := StoredCsv(id, d, now)], now, maxAge), id, now, maxAge) == Some(d)
  {
  }

  /** Filing under a fresh id adds that key and no other, and changes no surviving entry's table. */
  lemma StoreAddsOneKey(m: map<string, StoredCsv>, e: StoredCsv, now: int, maxAge: int)
    requires e.id !in m
    requires !Expired(e, now, maxAge)
    ensures var r := Sweep(m[e.id := e], now, maxAge);
      && e.id in r && r[e.id] == e
      && r.Keys - {e.id} <= m.Keys
      && forall id :: id in r && id != e.id ==> r[id] == m[id]
  {
  }

  /** Filing an entry under its own id keeps every entry under its own id. */
  lemma IdsMatchFiled(m: map<string, StoredCsv>, e: StoredCsv)
    requires IdsMatch(m)
    ensures IdsMatch(m[e.id := e])
  {
  }

  /** A sweep keeps every entry under its own id. */
  lemma IdsMatchSwept(m: map<string, StoredCsv>, now: int, maxAge: int)
    requires IdsMatch(m)
    ensures IdsMatch(Sweep(m, now, maxAge))
  {
  }

  /** `get` deletes at most the entry asked for, and only when it refuses it. */
  lemma AfterGetOnlyEvicts(m: map<string, StoredCsv>, id: string, now: int, maxAge: int)
    ensures AfterGet(m, id, now, maxAge).Keys == if Lookup(m, id, now, maxAge).None? then m.Keys - {id} else m.Keys
    ensures forall k :: k in AfterGet(m, id, now, maxAge) ==> AfterGet(m, id, now, maxAge)[k] == m[k]
  {
  }
}
