# Transparent price cache

A model of the read-through, time-bounded price cache of `cache.go`. A
`TransparentCache` wraps a slow, fallible `PriceService`. It keeps a table
from item code to a `Price` record: the value plus the instant it expires.
`GetPriceFor` serves a record while it is fresh. Fresh means the current
instant is strictly before its expiration, as in Go's `expiration.After(now)`.
Otherwise it asks the service. If the service fails, the lookup returns the
service's message behind the prefix `"getting price from service : "` and
writes nothing. If the service answers, the lookup stores the answer with
expiration `now + maxAge`, replacing any old record for that key, and returns
it.

The model has two modules:

- `Cache` (`cache.dfy`) holds the data model and the lookup.
  - `Result`, `Price` and `PriceService` are the data model.
  - `PriceFor` is the lookup as a function over the table. Its contract states
    each branch of the lookup.
  - The class `TransparentCache` has the service and `maxAge` as `const`
    fields, so no method can change them. The table `prices` is a mutable
    `map`. A ghost log `consulted` records the item codes the service was
    asked for. Its method `GetPriceFor` updates the table in place and is
    proved equal to `PriceFor`.
- `CacheRuns` (`cache_runs.dfy`) covers successive lookups on one cache.
  `Replay` chains `PriceFor` over a sequence of `Request`s, as successive
  calls of the method do. The lemmas relate lookups to each other: other keys
  are left alone, a refreshed price is served until it expires, a non-positive
  lifetime never serves from the table, and every price handed out came from
  the service.

Modelling choices:

- Instants are integers and `maxAge` is an integer difference of instants.
- The source reads the clock twice. `nowCheck` is the reading tested against
  the stored record (cache.go:44). `nowStore` is the reading taken after the
  service answered, from which the new expiration is counted (cache.go:53).
  `Chronological` states that the clock never goes back. Only the lemmas
  that need a monotone clock require it.
- The service is a function from an item code and an instant to a `Result`.
  The instant is the one at which the lookup asks, taken as `nowCheck`. This
  lets the service answer differently over time.
- Prices are an opaque type parameter `V`, because the cache only stores and
  returns them.

## Model

| member | source | states |
|---|---|---|
| `Cache.PriceFor` | cache.go:39-55 | The service is consulted exactly when there is no record for the key that is fresh at `nowCheck`, with equality to the expiration counting as stale. A fresh record's value is returned and the table is unchanged. A service error comes back as the prefix followed by the service's message, and the table stays exactly as it was, including an expired record, which is not extended. A service answer is returned and stored as `Price(v, nowStore + maxAge)`. After any successful lookup the table holds the returned value for the key. All other entries are unchanged and no key is removed. |
| `Cache.TransparentCache.constructor` | cache.go:30-36 | A new cache holds the given service and `maxAge` unchanged, and its table and call log are empty. |
| `Cache.TransparentCache.GetPriceFor` | cache.go:39-55 | The result and the new table are those of `PriceFor` on the old table. The service-call log grows by the item code exactly when the service was consulted. Only `prices` and the log are written; the service and `maxAge` are constants. |
| `CacheRuns.Replay` | cache.go:39-55 | A sequence of lookups gives one result and one consulted flag per request. The table's key set only grows. |
| `CacheRuns.OtherKeys` | cache.go:53 | A lookup leaves the presence and the record of every other item code as they were. |
| `CacheRuns.KeepsRecord` | cache.go:40-54 | Lookups that store nothing for an item leave its presence and record as they were. Such lookups are lookups of other items, cache hits on it, and failed refreshes of it. |
| `CacheRuns.HitsStoreNothing` | cache.go:41-46 | Lookups of an item made while its record is still fresh are cache hits. Each one does not ask the service and returns the stored price, so none of them stores anything for the item. |
| `CacheRuns.FreshnessAcrossCalls` | cache.go:44-53 | Suppose a lookup fetched a price from the service at `nowStore`, and no lookup stored a price for that item afterwards. A later lookup of the same item then skips the service exactly when its `nowCheck` is before `nowStore + maxAge`, and in that case it returns the same price. From `nowStore + maxAge` on, the service is asked again. |
| `CacheRuns.FreshThroughHits` | cache.go:15-17 | A price fetched at `nowStore` is served, without asking the service, to every later lookup of the item before `nowStore + maxAge`. This holds whatever lookups came in between, provided those of the same item were made no later than it. |
| `CacheRuns.ExpireByStep` | cache.go:53 | If every record expires at most `maxAge` after the latest clock reading, that still holds after a lookup, measured from the lookup's own later reading. |
| `CacheRuns.NeverServedWithoutMaxAge` | cache.go:44-53 | With `maxAge <= 0`, a clock that never goes back, and a table whose records expire by then, every lookup in a sequence consults the service. |
| `CacheRuns.NewCacheWithoutMaxAge` | cache.go:30-55 | A cache created with `maxAge <= 0` consults the service on every lookup while the clock never goes back. |
| `CacheRuns.SourcedStep` | cache.go:40-54 | Suppose every record holds the service's answer to an earlier lookup of its item that asked the service. One more lookup keeps that true. A price it returns is the service's answer to such a lookup, either this one or an earlier one. |
| `CacheRuns.Transparent` | cache.go:15-17 | Starting from such a table, every price the i-th lookup returns is the service's answer to a lookup of that same item that asked the service. That lookup is the i-th one or an earlier one. |
| `CacheRuns.NewCacheTransparent` | cache.go:30-55 | From a new, empty cache, every price the i-th lookup returns equals the service's answer to some lookup j <= i of that same item whose consulted flag is set. |

## Left out

- `GetPricesFor` (cache.go:57-82) is not modelled. It fans out one goroutine per item code with a `sync.WaitGroup`. Its goroutines append to `results` and write `err` without synchronisation, and its result order is completion order. None of this is sequential behaviour.
- The concurrency of `sync.Map` is not modelled, including atomic whole-record replacement and racing stores. The table is a plain `map` changed by one caller at a time. Duplicate service calls under concurrent misses ("stampede") are out of scope for the same reason.
- The `PriceService` interface (cache.go:9-13) is modelled only as a function of the item code and the instant it is asked. Its implementations are external to `cache.go`.
- `time.Now()` is left out. The two clock readings are parameters of the lookup.
- `time.Time` and `time.Duration` are unbounded integers. The overflow and monotonic-clock details of Go's time arithmetic are not modelled.
- `float64` is left out. Prices are an opaque type that is only stored and returned.
- On failure the source returns `0` alongside the error. The model returns only the error.
- `fmt.Errorf` formatting is modelled only as the fixed prefix followed by the service's message.
- A real service can answer two calls made at the same instant differently. The model cannot: the service is a function of the item code and the instant, so two lookups of one item that ask it at the same instant get the same answer. No property proved here depends on this.
