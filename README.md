# httpcache: the policy-driven cache layer, in Dafny

This project models the cache layer of the `httpcache` Go package (`httpcache.go`).
An HTTP GET is served from a persisted key-value store when a fresh entry exists.
Otherwise the body is fetched and written through. How long a body stays fresh comes
from an ordered list of regex-to-TTL policies read from a policy file.

The model has five modules:

- `Wrappers` (wrappers.dfy): `Option` and `Result`.
- `Text` (text.dfy): the parts of Go's `strings` package the parser uses, on
  `seq<char>`. These are `TrimSpace` with `unicode.IsSpace`, and `Index` and
  `LastIndex` of one character.
- `Policies` (policies.dfy): the policy-file parser and the first-match TTL resolver.
  - `LoadPoliciesFromFile` is the scanner loop. It is proved equal to the function
    `Load`, and `ScanLine` (the loop body) is proved equal to `LinePolicy`.
  - The lemmas state the line rules, the round trip of `pattern=duration` with and
    without white space and an inline comment,
    all-or-nothing loading, file order and the trailing default.
  - `GetTTL` is `Cache.getTTL`. The lemmas pin it to the earliest matching policy.
- `Store` (store.dfy): `CacheEntry`, and the store as a map from key to a decodable
  entry or undecodable bytes.
  - `Read` and `Write` are `Cache.Get` and `Cache.Set` as functions of the store.
  - `class Cache` holds the store in a `map` field. Its `Get` and `Set` methods update
    that field in place and are proved against `Read` and `Write`.
- `Client` (client.dfy): `Fetch` is `HTTPClient.Get` as a function of the store.
  - `class HTTPClient` has a `Get` method proved against it.
  - The ghost field `fetchLog` records the URL of every call that sent a request:
    every call the cache did not serve, except one whose request could not be built.

Time is an integer count of nanoseconds. A client call reads the clock twice: in the
cache read before the request (`readTime`), and in the cache write after the body has
arrived (`writeTime`). Both readings are parameters, so a slow fetch is modelled: the
entry expires `ttl` after the write, not after the read. A `time.Duration` is an
integer count of nanoseconds. Go's `regexp` and `time.ParseDuration` are parameters:
- `compiles(pattern)`: the pattern compiles;
- `matches(pattern, url)`: the compiled pattern matches somewhere in the URL;
- `parse(text)`: the duration, or `None`.

A policy keeps its pattern's source text, which determines the compiled regexp.

The faults a store call may meet are a per-call `StoreFaults` record: Get, Delete or
Put returning an error, or the entry failing to encode. The network is a per-call
`FetchOutcome`: a body, or the error of building the request, of the transport, or
of reading the body. `hashKey` (SHA-256 in hex) is a function the client is built with.

Entries carry an absolute `ExpiresAt` fixed when they are written. A read compares it
with its own clock reading; the TTL is not looked up again at read time.

## Model

| member | source | states |
|---|---|---|
| `Text.TrimSpace` | httpcache.go:75 | the trimmed line is no longer than the input and neither starts nor ends with white space (Go's `unicode.IsSpace` set) |
| `Text.IndexOf` | httpcache.go:82 | the position of the first `#`, or -1 exactly when the line has none; no `#` before it |
| `Text.LastIndexOf` | httpcache.go:87 | the position of the last `=`, or -1 exactly when the line has none; no `=` after it |
| `Policies.ScanLine` | httpcache.go:75-109 | one loop iteration yields the line's policy, nothing for a skipped line, or the error the line aborts with (format, regex or duration), exactly as `LinePolicy` defines |
| `Policies.LoadPoliciesFromFile` | httpcache.go:53-118 | the loader returns exactly `Load(source)`: the default alone without a file name or file, an open error, the first failing line's error, a read error, or the accepted policies followed by the default |
| `Policies.ErrorPersists` | httpcache.go:87-104 | once the lines read so far fail, the whole file fails with that same error (the early return) |
| `Policies.LineRules` | httpcache.go:75-92 | a line is skipped iff it is blank or starts with `#` after trimming; a rule's pattern has no `#`; its duration has neither `#` nor `=`; both are trimmed |
| `Policies.RuleRoundTrip` | httpcache.go:81-92 | reading back `pattern=duration` gives that pattern and duration, for a trimmed pattern without `#` (it may contain `=`) and a trimmed duration without `#` or `=` |
| `Policies.CommentedRuleRoundTrip` | httpcache.go:75-92 | a rule with white space before it, around its `=` and before an inline `#` comment reads back as the same pattern and duration: the comment is cut at the first `#` and both halves are trimmed |
| `Policies.LoadLinesAllOrNothing` | httpcache.go:74-110 | the lines load iff every line is valid; then they yield one policy per rule line, in file order (`Rules`) |
| `Policies.FirstBadLineDecides` | httpcache.go:87-104 | a failing load reports the error of the first invalid line, whatever follows it |
| `Policies.LoadResult` | httpcache.go:53-117 | no file name or a missing file gives exactly `[default]`; an open error gives an error; a file loads iff it reads to the end and every line is valid, and then gives the rules followed by the default; every loaded list ends with the default |
| `Policies.GetTTLFirstMatch` | httpcache.go:146-151 | the resolved TTL is that of the earliest matching policy; later matching policies are ignored |
| `Policies.GetTTLNoMatch` | httpcache.go:146-153 | when no policy matches, the resolved TTL is 0 |
| `Policies.GetTTLAppend` | httpcache.go:147-152 | a list followed by more policies resolves as the first list when something in it matches, and as the rest otherwise |
| `Policies.LoadedPoliciesResolve` | httpcache.go:116 | when `.*` matches the URL, a loaded list always resolves through one of its policies (never the fall-through 0), and the URL gets the default's 10 minutes when no explicit policy matches |
| `Policies.ExampleResolution` | httpcache_test.go:82-125 | with the test's two rules and the default, the test's three URLs resolve to 5 minutes, 1 second and 10 minutes |
| `Store.Cache.constructor` | httpcache.go:38-41 | a cache over a given store, policy list and matcher |
| `Store.Cache.Get` | httpcache.go:193-210 | the new store and the returned `(data, found)` are those of `Read`: a miss (empty data) on a Get error, a missing key or undecodable bytes; a miss and deletion on expiry; otherwise the entry's data |
| `Store.Cache.Set` | httpcache.go:212-228 | the new store is that of `Write`: unchanged when encoding or Put fails, otherwise the entry `(data, url, now + ttl)` under the key |
| `Store.ReadHitsLiveEntries` | httpcache.go:193-210 | a read hits iff a decodable, unexpired entry is under the key and Get succeeds; a hit returns that entry's data and leaves the store unchanged |
| `Store.MissLeavesStore` | httpcache.go:194-202 | a Get error, a missing key or undecodable bytes give a miss and leave the store unchanged |
| `Store.ExpiredEntryDeleted` | httpcache.go:204-207 | an expired entry (strictly after `ExpiresAt`) gives a miss and is deleted, and every other key keeps its value; a failed delete leaves the store unchanged |
| `Store.ReadOnlyDeletes` | httpcache.go:193-210 | a read never adds or changes an entry: afterwards the store is as before or lacks only the key read |
| `Store.WriteOnlyTouchesKey` | httpcache.go:212-228 | a write changes at most the key written; encode or Put failure leaves the store unchanged; otherwise the key holds the data, the URL and `now + ttl` |
| `Store.ReadAfterWrite` | httpcache.go:204-216 | after a write at `t` with TTL `ttl`, a read at any `now <= t + ttl` returns the written data unchanged; a read after `t + ttl` misses and deletes the entry |
| `Client.HTTPClient.constructor` | httpcache.go:43-46 | a client over a cache and a key function, with an empty fetch log |
| `Client.HTTPClient.Get` | httpcache.go:160-191 | the key is `hashKey(url)`, the TTL is the cache's TTL for the URL; the new store and the result are those of `Fetch`, with the cache read at `readTime` and the cache write at `writeTime`; the URL is appended to the fetch log exactly when a request was sent |
| `Client.NonPositiveTTLBypassesCache` | httpcache.go:163-188 | with a TTL of 0 or less the store is neither read nor written, the request's outcome is returned, and a request is sent unless it could not be built |
| `Client.FetchOnlyOnMiss` | httpcache.go:160-176 | a request is sent iff it can be built and the TTL is not positive or no live entry is under the key; a live entry is returned as stored, with no request and the store unchanged |
| `Client.FetchErrorStoresNothing` | httpcache.go:170-184 | a request, transport or body-read error is returned as is and nothing is written; the store is what the cache read left, so it changes only when the read found an expired, decodable entry and deleted it, and then by losing just that key |
| `Client.FetchedBodyReturnedAndStored` | httpcache.go:181-190 | a fetched body is always returned, even when encode or Put fails; with a positive TTL and no write fault it is stored under the key with expiry `writeTime + ttl` |
| `Client.SecondGetWithinTTLIsServedFromCache` | httpcache_test.go:50-71 | after a fetch written at `w1` with a positive TTL, a call that reads the cache at any `t2 <= w1 + ttl` returns the same bytes without a request and leaves the store unchanged |
| `Client.ExpiredEntryIsRefetched` | httpcache_test.go:142-156 | once a read comes after `w1 + ttl`, that call sends a request again, returns the new body and stores it with expiry `w2 + ttl`, where `w2` is its own write time |
| `Client.RepeatedGet` | httpcache_test.go:64-71 | on the client object, starting with no live entry: a first Get that fetches and a second Get that reads within the TTL of the first write return identical bytes, and the fetch log grows by exactly one URL |

## Left out

- `GetClient`, the `sync.Once` singleton and `Close` (httpcache.go:48-51, 120-144, 230-236): they do one-time initialisation under concurrency and end the process with `log.Fatalf`. The constructors of `Cache` and `HTTPClient` stand in for the struct literal.
- Command-line flags (httpcache.go:22-25), and opening and scanning the policy file: I/O. The parser takes a `PolicySource`: no file name, a missing file, a file that cannot be opened, or the scanner's lines followed by an optional read error.
- Building the request, the User-Agent header, `client.Do` and `io.ReadAll` (httpcache.go:170-184): network I/O. Each call's `FetchOutcome` parameter stands in for them.
- The regex engine and `time.ParseDuration`: library behaviour. They are the parameters `compiles`, `matches` and `parse`. That `.*` matches every URL is a precondition of `Policies.LoadedPoliciesResolve`.
- SHA-256 and hex encoding in `hashKey` (httpcache.go:155-158): a cryptographic library. It is an uninterpreted deterministic function. `Cache.Get` does not compare the stored URL with the requested one. Under a colliding `hashKey`, the model, like the code, would serve another URL's entry.
- JSON encoding and the LevelDB store: opaque libraries. The store is a map whose values are a decoded entry or undecodable bytes, and encoding then decoding is taken to return the same entry.
- `time.Now()`: each clock reading is an integer parameter. The monotonic clock reading, which JSON encoding drops anyway, is not modelled.
- Logging of the encode and Put errors that `Set` swallows (httpcache.go:219-227): their only effect is output. The error of the `Delete` on expiry (httpcache.go:205) is discarded, not logged; the model lets that Delete fail through `deleteFails`.
- Machine integers: durations and times are unbounded integers, so the int64 range of `time.Duration` and of `now + ttl` is not modelled.
- Go strings are byte strings decoded as UTF-8 by `TrimSpace`; the model works on characters. `#` and `=` are ASCII, so the split positions are the same. Invalid UTF-8 is not modelled.
- Policies.CommentedRuleRoundTrip: stated for a non-empty duration, and for a pattern followed by white space only when the pattern is non-empty; with those empty, trimming would join the white space on either side of `=`, and `Policies.RuleRoundTrip` covers them without a comment.
- Text.TrimSpace: its contract states only the length bound and the absence of white space at both ends. That the result is the input with white space removed from each end, and nothing else, is stated by the lemmas `Text.TrimLeftIsSuffix` and `Text.TrimRightIsPrefix`.
- httpcache_test.go:120 and :168 call `GetTTL` and `GetWithFinalURL`, which `httpcache.go` does not define. Those tests are evidence only for the behaviour this file has.
- cmd/httpcache-info/main.go is an inspection command: I/O throughout, not part of this model.
