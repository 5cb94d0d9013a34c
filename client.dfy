/** The fetch orchestrator: derive the key from the URL, resolve the URL's
    TTL, serve a live cache entry when the TTL is positive, and otherwise fetch
    and, when the TTL is positive, write the body through to the cache.

    The network is the parameter `outcome`: what building and sending the
    request would produce (a body, or the error of building the request, of
    the transport, or of reading the body). The clock is read twice, by the
    cache read before the request and by the cache write after the body has
    arrived: `readTime` and `writeTime`. The key derivation (a SHA-256 digest
    in hex) is the client's function `hashKey`. */
module Client {
  import opened Wrappers
  import opened Policies
  import opened Store

  datatype FetchError = BadRequest | TransportFailed | BodyReadFailed

  datatype FetchOutcome = Fetched(body: Bytes) | FetchFailed(error: FetchError)

  /** A request that could be built is sent to the network; one that could
      not fails before anything is sent. */
  predicate Sent(outcome: FetchOutcome)
  {
    outcome != FetchFailed(BadRequest)
  }

  /** One call's effect: the store afterwards, what the caller gets, and
      whether a request was sent. */
  datatype Exchange = Exchange(store: KeyValueStore, result: Result<Bytes, FetchError>, fetched: bool)

  /** HTTPClient.Get as a function of the store, for the key and the TTL the
      URL resolves to. */
  function Fetch(store: KeyValueStore, key: string, ttl: Duration, url: string, readTime: Time,
                 writeTime: Time, outcome: FetchOutcome, faults: StoreFaults): Exchange
  {
    var lookup := if ttl > 0 then Read(store, key, readTime, faults) else Lookup(store, None);
    if lookup.data.Some? then Exchange(lookup.store, Ok(lookup.data.value), false)
    else match outcome
      case FetchFailed(e) => Exchange(lookup.store, Err(e), e != BadRequest)
      case Fetched(body) =>
        var after := if ttl > 0 then Write(lookup.store, key, body, url, ttl, writeTime, faults) else lookup.store;
        Exchange(after, Ok(body), true)
  }

  class HTTPClient {
    const cache: Cache
    const hashKey: string -> string
    /** The URLs a request was sent for, in order. */
    ghost var fetchLog: seq<string>

    constructor (cache: Cache, hashKey: string -> string)
      ensures this.cache == cache && this.hashKey == hashKey && fetchLog == []
    {
      this.cache := cache;
      this.hashKey := hashKey;
      fetchLog := [];
    }

    method Get(url: string, readTime: Time, writeTime: Time, outcome: FetchOutcome, faults: StoreFaults)
      returns (r: Result<Bytes, FetchError>)
      modifies this, cache
      ensures var exchange := Fetch(old(cache.store), hashKey(url), cache.TTL(url), url, readTime, writeTime,
                                    outcome, faults);
        && cache.store == exchange.store
        && r == exchange.result
        && fetchLog == old(fetchLog) + if exchange.fetched then [url] else []
    {
      var key := hashKey(url);
      var ttl := cache.TTL(url);
      if ttl > 0 {
        var value, found := cache.Get(key, readTime, faults);
        if found {
          return Ok(value);
        }
      }
      if outcome == FetchFailed(BadRequest) {
        return Err(BadRequest);
      }
      fetchLog := fetchLog + [url];
      match outcome {
        case FetchFailed(e) =>
          return Err(e);
        case Fetched(body) =>
          if ttl > 0 {
            cache.Set(key, body, url, ttl, writeTime, faults);
          }
          return Ok(body);
      }
    }
  }

  /** The result the network's outcome gives the caller. */
  function AsResult(outcome: FetchOutcome): Result<Bytes, FetchError>
  {
    match outcome
    case Fetched(body) => Ok(body)
    case FetchFailed(e) => Err(e)
  }

  // ---------------------------------------------------------------------
  // Properties of one call

  /** With a TTL of zero or less the cache is neither read nor written: the
      outcome of the request is returned, and a request is sent unless it
      could not be built. */
  lemma NonPositiveTTLBypassesCache(store: KeyValueStore, key: string, ttl: Duration, url: string,
                                    readTime: Time, writeTime: Time, outcome: FetchOutcome, faults: StoreFaults)
    requires ttl <= 0
    ensures Fetch(store, key, ttl, url, readTime, writeTime, outcome, faults)
         == Exchange(store, AsResult(outcome), Sent(outcome))
  {
  }

  /** A request is sent exactly when it can be built and the TTL is not
      positive or no live entry is stored under the key; a live entry is
      returned as stored and the store is left as it was. */
  lemma FetchOnlyOnMiss(store: KeyValueStore, key: string, ttl: Duration, url: string,
                        readTime: Time, writeTime: Time, outcome: FetchOutcome, faults: StoreFaults)
    ensures var exchange := Fetch(store, key, ttl, url, readTime, writeTime, outcome, faults);
      exchange.fetched <==> !(ttl > 0 && FreshHit(store, key, readTime, faults)) && Sent(outcome)
    ensures ttl > 0 && FreshHit(store, key, readTime, faults) ==>
      Fetch(store, key, ttl, url, readTime, writeTime, outcome, faults)
        == Exchange(store, Ok(store[key].entry.data), false)
  {
  }

  /** A failed request returns its error and writes nothing: the store is
      what the cache read left, so it changes only when the read found an
      expired entry it could delete, and then only by losing that entry. */
  lemma FetchErrorStoresNothing(store: KeyValueStore, key: string, ttl: Duration, url: string,
                                readTime: Time, writeTime: Time, e: FetchError, faults: StoreFaults)
    requires !(ttl > 0 && FreshHit(store, key, readTime, faults))
    ensures var exchange := Fetch(store, key, ttl, url, readTime, writeTime, FetchFailed(e), faults);
      && exchange.result == Err(e)
      && exchange.store == (if ttl > 0 then Read(store, key, readTime, faults).store else store)
      && (exchange.store != store ==>
            && ttl > 0 && !faults.getFails && !faults.deleteFails
            && key in store && store[key].Encoded? && Expired(store[key].entry, readTime)
            && exchange.store == store - {key})
  {
  }

  /** A successful fetch always returns the body, whatever faults the cache
      write meets; with a positive TTL and no write fault the body is stored
      under the key with expiry `ttl` after the write's clock reading. */
  lemma FetchedBodyReturnedAndStored(store: KeyValueStore, key: string, ttl: Duration, url: string,
                                     readTime: Time, writeTime: Time, body: Bytes, faults: StoreFaults)
    requires !(ttl > 0 && FreshHit(store, key, readTime, faults))
    ensures var exchange := Fetch(store, key, ttl, url, readTime, writeTime, Fetched(body), faults);
      && exchange.result == Ok(body)
      && (ttl > 0 && !faults.encodeFails && !faults.putFails ==>
            key in exchange.store && exchange.store[key] == Encoded(CacheEntry(body, url, writeTime + ttl)))
  {
  }

  // ---------------------------------------------------------------------
  // Two calls for the same URL

  /** A fetch written to the cache with a positive TTL at time `w1` serves a
      second call that reads the cache at any `t2 <= w1 + ttl`: the same
      bytes, no second request, no change to the store. */
  lemma SecondGetWithinTTLIsServedFromCache(store: KeyValueStore, key: string, ttl: Duration, url: string,
                                            t1: Time, w1: Time, body: Bytes, faults1: StoreFaults,
                                            t2: Time, w2: Time, outcome2: FetchOutcome, faults2: StoreFaults)
    requires ttl > 0 && !faults1.encodeFails && !faults1.putFails && !faults2.getFails
    requires Fetch(store, key, ttl, url, t1, w1, Fetched(body), faults1).fetched
    requires t2 <= w1 + ttl
    ensures var first := Fetch(store, key, ttl, url, t1, w1, Fetched(body), faults1);
      Fetch(first.store, key, ttl, url, t2, w2, outcome2, faults2) == Exchange(first.store, first.result, false)
  {
  }

  /** Once the TTL has passed since the first write, the next call sends a
      request again and, on success with no fault, replaces the entry with
      one that expires `ttl` after the second write. */
  lemma ExpiredEntryIsRefetched(store: KeyValueStore, key: string, ttl: Duration, url: string,
                                t1: Time, w1: Time, body1: Bytes, faults1: StoreFaults,
                                t2: Time, w2: Time, body2: Bytes, faults2: StoreFaults)
    requires ttl > 0 && !faults1.encodeFails && !faults1.putFails
    requires !faults2.encodeFails && !faults2.putFails
    requires Fetch(store, key, ttl, url, t1, w1, Fetched(body1), faults1).fetched
    requires t2 > w1 + ttl
    ensures var first := Fetch(store, key, ttl, url, t1, w1, Fetched(body1), faults1);
      var second := Fetch(first.store, key, ttl, url, t2, w2, Fetched(body2), faults2);
      && second.fetched && second.result == Ok(body2)
      && key in second.store && second.store[key] == Encoded(CacheEntry(body2, url, w2 + ttl))
  {
  }

  /** The package's client test at the level of the client object: with no
      live entry for the URL, a first Get that fetches a body and a second Get
      that reads the cache within the TTL of the first write return identical
      bytes, and only the first one sends a request. */
  method RepeatedGet(client: HTTPClient, url: string, t1: Time, w1: Time, body: Bytes,
                     t2: Time, w2: Time, outcome2: FetchOutcome)
    returns (first: Result<Bytes, FetchError>, second: Result<Bytes, FetchError>)
    requires client.cache.TTL(url) > 0 && t2 <= w1 + client.cache.TTL(url)
    requires !FreshHit(client.cache.store, client.hashKey(url), t1, NoFaults)
    modifies client, client.cache
    ensures first == Ok(body) && second == first
    ensures client.fetchLog == old(client.fetchLog) + [url]
  {
    var key, ttl := client.hashKey(url), client.cache.TTL(url);
    ghost var before := client.cache.store;
    FetchOnlyOnMiss(before, key, ttl, url, t1, w1, Fetched(body), NoFaults);
    FetchedBodyReturnedAndStored(before, key, ttl, url, t1, w1, body, NoFaults);
    SecondGetWithinTTLIsServedFromCache(before, key, ttl, url, t1, w1, body, NoFaults, t2, w2, outcome2, NoFaults);
    first := client.Get(url, t1, w1, Fetched(body), NoFaults);
    second := client.Get(url, t2, w2, outcome2, NoFaults);
  }
}
