/** The expiring key-value cache over the persisted store: entries carry an
    absolute expiry time, reads report a miss on any store or decode fault,
    and an entry a read finds expired is deleted then and there.

    The persisted store is a map from key to what is stored there: an entry
    that decodes, or bytes that do not. The wall clock is the parameter `now`
    (nanoseconds), and the faults the store or the encoder may raise during
    one call are the parameter `faults`. */
module Store {
  import opened Wrappers
  import opened Policies

  newtype byte = b: int | 0 <= b < 256

  type Bytes = seq<byte>

  /** A point on the wall clock, in nanoseconds. */
  type Time = int

  /** CacheEntry: the body, the URL it was fetched from, and when it expires. */
  datatype CacheEntry = CacheEntry(data: Bytes, url: string, expiresAt: Time)

  /** What the persisted store holds under a key. */
  datatype StoredValue = Encoded(entry: CacheEntry) | Undecodable(raw: Bytes)

  type KeyValueStore = map<string, StoredValue>

  /** The faults one call may meet: the store's Get, Delete or Put returning an
      error, or the entry failing to encode. */
  datatype StoreFaults = StoreFaults(getFails: bool, deleteFails: bool, encodeFails: bool, putFails: bool)

  const NoFaults: StoreFaults := StoreFaults(false, false, false, false)

  /** The expiry test: strictly after the expiry time. */
  predicate Expired(entry: CacheEntry, now: Time)
  {
    now > entry.expiresAt
  }

  /** The outcome of a read: the store afterwards and the data found, if any. */
  datatype Lookup = Lookup(store: KeyValueStore, data: Option<Bytes>)

  /** Cache.Get as a function of the store. */
  function Read(store: KeyValueStore, key: string, now: Time, faults: StoreFaults): Lookup
  {
    if faults.getFails || key !in store then Lookup(store, None)
    else match store[key]
      case Undecodable(_) => Lookup(store, None)
      case Encoded(entry) =>
        if Expired(entry, now) then Lookup(if faults.deleteFails then store else store - {key}, None)
        else Lookup(store, Some(entry.data))
  }

  /** Cache.Set as a function of the store. */
  function Write(store: KeyValueStore, key: string, data: Bytes, url: string, ttl: Duration, now: Time,
                 faults: StoreFaults): KeyValueStore
  {
    if faults.encodeFails || faults.putFails then store
    else store[key := Encoded(CacheEntry(data, url, now + ttl))]
  }

  /** A read that finds a live entry under `key`. */
  ghost predicate FreshHit(store: KeyValueStore, key: string, now: Time, faults: StoreFaults)
  {
    !faults.getFails && key in store && store[key].Encoded? && !Expired(store[key].entry, now)
  }

  class Cache {
    var store: KeyValueStore
    const policies: seq<Policy>
    const matches: (string, string) -> bool

    constructor (store: KeyValueStore, policies: seq<Policy>, matches: (string, string) -> bool)
      ensures this.store == store && this.policies == policies && this.matches == matches
    {
      this.store := store;
      this.policies := policies;
      this.matches := matches;
    }

    /** Cache.getTTL. */
    function TTL(url: string): Duration
    {
      GetTTL(policies, matches, url)
    }

    method Get(key: string, now: Time, faults: StoreFaults) returns (data: Bytes, found: bool)
      modifies this
      ensures var lookup := Read(old(store), key, now, faults);
        && store == lookup.store
        && found == lookup.data.Some?
        && data == if found then lookup.data.value else []
    {
      if faults.getFails || key !in store {
        return [], false;
      }
      var value := store[key];
      if value.Undecodable? {
        return [], false;
      }
      var entry := value.entry;
      if now > entry.expiresAt {
        if !faults.deleteFails {
          store := store - {key};
        }
        return [], false;
      }
      return entry.data, true;
    }

    method Set(key: string, data: Bytes, url: string, ttl: Duration, now: Time, faults: StoreFaults)
      modifies this
      ensures store == Write(old(store), key, data, url, ttl, now, faults)
    {
      var entry := CacheEntry(data, url, now + ttl);
      if faults.encodeFails {
        return;
      }
      if !faults.putFails {
        store := store[key := Encoded(entry)];
      }
    }
  }

  // ---------------------------------------------------------------------
  // Properties of reads and writes

  /** A read hits exactly when a live entry is stored under the key, and then
      returns that entry's data and leaves the store as it was. */
  lemma ReadHitsLiveEntries(store: KeyValueStore, key: string, now: Time, faults: StoreFaults)
    ensures Read(store, key, now, faults).data.Some? <==> FreshHit(store, key, now, faults)
    ensures FreshHit(store, key, now, faults) ==>
      Read(store, key, now, faults) == Lookup(store, Some(store[key].entry.data))
  {
  }

  /** A missing key, a Get error or bytes that do not decode give a miss and
      leave the store unchanged. */
  lemma MissLeavesStore(store: KeyValueStore, key: string, now: Time, faults: StoreFaults)
    requires faults.getFails || key !in store || store[key].Undecodable?
    ensures Read(store, key, now, faults) == Lookup(store, None)
  {
  }

  /** A read of an expired entry misses and deletes that key only (unless
      the delete fails, which leaves the store as it was). */
  lemma ExpiredEntryDeleted(store: KeyValueStore, key: string, now: Time, faults: StoreFaults)
    requires !faults.getFails && key in store && store[key].Encoded? && Expired(store[key].entry, now)
    ensures Read(store, key, now, faults).data == None
    ensures var after := Read(store, key, now, faults).store;
      && (faults.deleteFails ==> after == store)
      && (!faults.deleteFails ==> key !in after && forall k :: k in store && k != key ==> k in after && after[k] == store[k])
      && after.Keys <= store.Keys
  {
  }

  /** A read never adds or alters an entry: the store afterwards is the store
      before, or it less the key read. */
  lemma ReadOnlyDeletes(store: KeyValueStore, key: string, now: Time, faults: StoreFaults)
    ensures var after := Read(store, key, now, faults).store;
      after == store || after == store - {key}
  {
  }

  /** A write changes at most the entry under its key; with no fault it stores
      the data, the URL and the expiry `now + ttl` there. */
  lemma WriteOnlyTouchesKey(store: KeyValueStore, key: string, data: Bytes, url: string, ttl: Duration,
                            now: Time, faults: StoreFaults)
    ensures var after := Write(store, key, data, url, ttl, now, faults);
      && (forall k :: k != key ==> (k in after <==> k in store) && (k in store ==> after[k] == store[k]))
      && (faults.encodeFails || faults.putFails ==> after == store)
      && (!faults.encodeFails && !faults.putFails ==>
            key in after && after[key] == Encoded(CacheEntry(data, url, now + ttl)))
  {
  }

  /** After a write at time `t` with TTL `ttl`, a read at any `now <= t + ttl`
      returns the written data and changes nothing; a read at any later time
      misses and deletes the entry. */
  lemma ReadAfterWrite(store: KeyValueStore, key: string, data: Bytes, url: string, ttl: Duration,
                       t: Time, writeFaults: StoreFaults, now: Time, readFaults: StoreFaults)
    requires !writeFaults.encodeFails && !writeFaults.putFails && !readFaults.getFails
    ensures var written := Write(store, key, data, url, ttl, t, writeFaults);
      now <= t + ttl ==> Read(written, key, now, readFaults) == Lookup(written, Some(data))
    ensures var written := Write(store, key, data, url, ttl, t, writeFaults);
      now > t + ttl && !readFaults.deleteFails ==> Read(written, key, now, readFaults) == Lookup(store - {key}, None)
  {
  }
}
