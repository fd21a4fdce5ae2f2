# Expiring in-process cache, modelled in Dafny

This project models the engine of a generic in-memory key/value cache written in
Go (`cache.go`). Every entry carries a payload and an absolute expiration instant,
given in Unix nanoseconds, where 0 means "never". Lookups hide expired entries
lazily, and a sweep (`DeleteExpired`) removes them physically. An optional
eviction callback hears about deletions and sweeps. A family of
`Increment`/`Decrement` operations adjusts integer payloads in place with Go's
fixed-width wraparound.

Layout:

- `numeric.dfy` (module `Numeric`): Go's integer kinds and `Wrap`, the
  reduction to a kind's width that every Go integer conversion and wrapping
  `+`/`-` performs. It also holds the modular lemmas. The narrowing lemmas
  include "narrowing the delta first does not change the result", and the
  inverse lemmas include "subtracting undoes adding".
- `entry.dfy` (module `Entry`): the payload (`Value<T>`: an integer of some
  kind, or an opaque `T`), the entry (`Item<T>`), and the two expiry tests of
  the source. These are kept apart on purpose:
  - `Expired` is the entry's own method (cache.go:19-24). Only an expiration
    of exactly 0 means "never". Increment, Decrement and the merge of Load use
    this test.
  - `PastDeadline` is the test that `get`, `Get`, `GetWithExpiration`, `Items`
    and `DeleteExpired` write out in place (cache.go:136, 183, 947, 1055).
    There, every expiration <= 0 means "never".

  The two tests disagree only on negative expirations. Such an expiration can
  come from a `NewFrom` or `Load` map, from a deadline that overflows int64, or
  from a write made while the clock reads before the Unix epoch.
- `outcomes.dfy` (module `Outcomes`): `Option`, and the three error kinds
  `AlreadyExists`, `NotFound` and `TypeMismatch`.
- `store.dfy` (module `Store`): pure views of the store (`Lookup` = `get`,
  `LiveItems` = what `Items` copies and `DeleteExpired` keeps, `Merged` = the
  merge of `Load`, `Adjusted` = the type switch of the generic increment and
  decrement), and the class `Cache<T>`. The class has the fields `items`,
  `defaultExpiration` and `onEvicted`, and its methods change `items` in place.
  `DeleteExpired`, `Load` and `Items` are loops over the keys of a map, as in
  the source.
- `properties.dfy` (module `Properties`): lemmas relating several operations.
  Examples: the lifetime of a written entry, sweep and snapshot invariance,
  Load's merge policy and the increment/decrement round trip. The module
  `Scenarios` is a client that uses only the method contracts: one method
  adds a key twice, increments it, replaces a missing key, deletes and
  flushes; the other sweeps an entry written with a short default lifetime.

Time is an explicit `now` parameter, read once per call. The eviction callback
is a boolean (installed or not), and the calls it would receive are returned
as a sequence of `Eviction(key, value)`.

Details of the code that the model keeps, although a summary of the cache
would easily state them otherwise:

- The constructor maps only a default of 0 to -1. A negative default is kept
  as it is, and it also means "never" because `set` computes a deadline only
  for a positive duration.
- Increment and Decrement treat an entry as missing by the entry's own
  `Expired` test, not by `get`'s test.
- `Decrement` subtracts directly for every kind, signed ones included.
- A deadline is `now + d` reduced to int64 (`Wrap(Int64, now + d)`), as
  `UnixNano` computes it.

## Model

| member | source | states |
|---|---|---|
| `Numeric.Wrap` | cache.go:204-225 | Go's conversion to a kind and its wrapping arithmetic: the result is in the kind's range, differs from the exact value by a multiple of 2^width (so it is wraparound, not saturation), and an in-range value is left unchanged |
| `Numeric.WrapOffset` | cache.go:204-225 | the wrapped value is the exact value plus an explicit multiple of 2^width |
| `Numeric.NarrowedAdd` | cache.go:204-225 | generic Increment: adding the int64 delta narrowed to the stored kind (`int8(n)`, `uint(n)`, ...) gives the full sum reduced to the kind's width |
| `Numeric.NarrowedSub` | cache.go:566-587 | generic Decrement: subtracting the narrowed delta gives the full difference reduced to the kind's width |
| `Numeric.AddThenSub` | cache.go:556-599 | for every in-range value, decrementing by n undoes incrementing by n under wraparound |
| `Numeric.SubThenAdd` | cache.go:196-237 | for every in-range value, incrementing by n undoes decrementing by n under wraparound |
| `Numeric.WrapSum` | cache.go:280-284 | wrapping an operand before a wrapped addition does not change the result, so chained fixed-width additions compose |
| `Entry.SetValue` | cache.go:26-31 | replaces the payload and keeps the expiration unchanged, so neither expiry test changes its answer at any instant |
| `Entry.Expired` | cache.go:19-24 | the entry's own test: an expiration of exactly 0 means never; otherwise the entry is expired only strictly after its instant (at the instant itself it is not) |
| `Entry.PastDeadline` | cache.go:136-142 | the test get, Get, GetWithExpiration, Items and DeleteExpired write out in place (also cache.go:183, 947, 1055): every expiration <= 0 means never; otherwise past only strictly after the instant |
| `Entry.HasKind` | cache.go:275-279 | the typed variants' type assertion (`any(v.Object).(int)`, ...): an opaque payload never passes, and an integer payload passes exactly for its own kind |
| `Entry.ExpiryTestsAgree` | cache.go:19-24 | the entry's own test and get's test agree on every non-negative expiration; an entry is still unexpired at its exact expiration instant |
| `Entry.NegativeExpirationDisagrees` | cache.go:183-187 | on a negative expiration that `now` has passed, the entry's own test says expired while get's test says never expires |
| `Store.NormalizedDefault` | cache.go:1113-1115 | the stored default is never 0 (the "use the default" sentinel): 0 becomes -1 ("never"), and any other value is kept |
| `Store.EffectiveDuration` | cache.go:61-63 | a requested duration of 0 takes the default; any other duration is used as given; the result is never 0 when the default is not 0 |
| `Store.ExpirationFor` | cache.go:60-66 | a non-positive effective duration stores 0 ("never"); a positive one stores `now + d` when that fits in int64; the result is always an int64 |
| `Store.Lookup` | cache.go:177-189 | get finds `k` iff it is present and its expiration is <= 0 or `now` <= expiration, and then returns that entry's payload |
| `Store.LiveItems` | cache.go:1053-1061 | the copy holds exactly the entries whose deadline has not passed, with unchanged contents |
| `Store.Merged` | cache.go:1019-1024 | the keys are the union; an incoming entry wins iff its key is absent or the stored entry is `Expired`; otherwise the stored entry stays |
| `Store.Adjusted` | cache.go:203-233 | only integer payloads are accepted; the result has the same kind and equals the payload plus or minus the delta, reduced to the kind's width |
| `Store.Cache.constructor` | cache.go:1112-1121 | the store holds the given map, the default is normalised, no callback is installed, and the invariant (default != 0, well-formed payloads) holds |
| `Store.Cache.Set` | cache.go:58-89 | only key `k` changes; it now holds `x` with the expiration the duration gives |
| `Store.Cache.SetDefault` | cache.go:93-95 | `Set` with the default duration |
| `Store.Cache.Add` | cache.go:99-109 | fails with AlreadyExists and leaves the store unchanged iff get finds `k`; otherwise acts as `Set` |
| `Store.Cache.Replace` | cache.go:113-123 | fails with NotFound and leaves the store unchanged (so `k` is not created) iff get does not find `k`; otherwise acts as `Set` |
| `Store.Cache.Get` | cache.go:127-145 | returns exactly what get sees and changes nothing |
| `Store.Cache.GetWithExpiration` | cache.go:151-175 | as Get, and also returns the entry's expiration when it is positive, or 0 when the entry was not found or has no positive deadline |
| `Store.Cache.Increment` | cache.go:196-237 | fails with NotFound if `k` is absent or `Expired`, and with TypeMismatch if the payload is not an integer, changing nothing; otherwise only `k` changes, to the wrapped sum, with the expiration kept |
| `Store.Cache.Decrement` | cache.go:556-599 | as Increment, with the wrapped difference |
| `Store.Cache.IncrementTyped` | cache.go:268-505 | the typed IncrementInt ... IncrementUint64: NotFound, or TypeMismatch unless the payload has exactly the requested kind, each returning 0 and changing nothing; otherwise returns and stores the wrapped sum, keeping the expiration |
| `Store.Cache.DecrementTyped` | cache.go:630-867 | the typed DecrementInt ... DecrementUint64: as IncrementTyped, with the wrapped difference |
| `Store.Cache.RemoveKey` | cache.go:923-933 | `k` is absent afterwards and nothing else changes; the removed payload is handed back iff a callback is installed and `k` was present |
| `Store.Cache.Delete` | cache.go:914-921 | `k` is absent afterwards; the callback is called exactly once, with `(k, old value)`, iff it is installed and `k` was present |
| `Store.Cache.DeleteExpired` | cache.go:941-958 | the store keeps exactly the entries whose deadline has not passed; with a callback, the evictions are exactly the removed pairs, each key once; without one, there are none |
| `Store.Cache.OnEvicted` | cache.go:963-967 | installs or clears the callback |
| `Store.Cache.Load` | cache.go:1012-1027 | the store becomes the merge of the old store with the incoming map |
| `Store.Cache.Items` | cache.go:1048-1063 | returns exactly the entries whose deadline has not passed, and leaves the store unchanged |
| `Store.Cache.ItemCount` | cache.go:1067-1072 | returns the size of the whole map, unswept entries included |
| `Store.Cache.Flush` | cache.go:1075-1079 | the store is empty afterwards; no eviction is reported |
| `Properties.SetThenGet` | cache.go:58-75 | for a write at t0 >= 0 whose deadline fits in int64: with a positive duration d the entry is found iff `t <= t0 + d` (still found at the boundary), and with no positive duration it is found at every t; an overflowing deadline never expires (see `FreshEntryVisible`) |
| `Properties.SetDefaultOnZeroDefaultNeverExpires` | cache.go:1112-1121 | on a cache made with default 0, SetDefault stores expiration 0, which get always finds and `Expired` never reports |
| `Properties.FreshEntryVisible` | cache.go:99-109 | an entry is visible at the instant it is written, even if its deadline overflows int64, so an immediate second Add of the key fails |
| `Properties.VisibleEarlier` | cache.go:136-142 | an entry that get finds at `t2` is found, with the same payload, at every earlier instant |
| `Properties.SweepInvisible` | cache.go:941-958 | a sweep at `now` changes nothing get sees at `now`, and sweeping twice equals sweeping once |
| `Properties.ItemCountBoundsItems` | cache.go:1065-1072 | ItemCount >= the size of Items, with equality right after a sweep at the same instant |
| `Properties.LazyExpirationOvercounts` | cache.go:1065-1066 | an entry past its deadline is invisible to get but still in the map that ItemCount counts |
| `Properties.SnapshotRoundTrip` | cache.go:1148-1163 | loading an Items snapshot into an empty store reproduces the snapshot, and the snapshot finds every key the original finds, with the same payload |
| `Properties.LoadKeepsUnexpired` | cache.go:1019-1024 | Load keeps stored entries that are not `Expired`, adopts incoming entries for missing keys, leaves keys outside the incoming map untouched, and loading the same map twice at the same instant equals loading it once |
| `Properties.LoadKeepsVisible` | cache.go:1007-1024 | when the stored expiration is not negative, Load never overwrites an entry that get finds |
| `Properties.NegativeExpirationSplitsViews` | cache.go:1019-1024 | an entry with expiration -1 is found by get yet overwritten by Load, because Load uses `Expired` |
| `Properties.DeleteHides` | cache.go:923-933 | after removal, get never finds `k`, and every other key looks the same as before |
| `Properties.IncrementDecrementInverse` | cache.go:551-599 | the generic Decrement by n undoes the generic Increment by n on every integer payload, and the other way round |
| `Properties.TypedAgreesWithGeneric` | cache.go:268-285 | a typed increment or decrement computes the same payload as the generic path on the same kind |
| `Properties.WraparoundExamples` | cache.go:214-225 | uint8 0 - 1 = 255, int8 127 + 1 = -128, and the int64 delta 300 acts on a uint8 as 44 |

## Left out

- Locking (`sync.RWMutex`) and concurrency: each operation is one atomic step, so the model says nothing about interleavings.
- The janitor (`janitor.Run`, `runJanitor`, `stopJanitor`, the ticker, the finalizer and the outer `Cache` wrapper, cache.go:1081-1136): these are goroutine and garbage-collection lifecycle. A tick is a call to `DeleteExpired`. `New` and `NewFrom` are both the constructor (with an empty map and with the caller's map), without the sweeper.
- Gob encoding, file I/O and the decode step of `Load` (`Save`, `SaveFile`, `LoadFile`): only Load's merge loop over an already decoded map is modelled, so decode errors are not modelled.
- Floating point: `IncrementFloat`, `DecrementFloat`, the `*Float32`/`*Float64` variants and the float cases of the generic `Increment`/`Decrement`. The model has no float payload, so a stored float cannot be represented.
- `time.Now()`, `time.Unix` and `time.Time`: time is the `now` parameter, and `GetWithExpiration` returns the raw nanosecond count, with 0 for "none". `Load` in the source reads the clock once per incoming entry, and `Add` and `Replace` read it twice, once in `get` (cache.go:184) and again in `set` (cache.go:83); the model uses one `now` for the whole call.
- Running the callback: only the installed flag and the `(key, value)` pairs it would receive are modelled, so a callback that panics or re-enters the cache is not covered.
- Error message texts: only the error kind is kept.
- Aliasing and the nil map of `NewFrom` (cache.go:1112-1121, 1169-1170): the source makes the caller's map the cache's own map, so later writes through the caller's reference show up in the cache, and a `nil` map makes the writes of `Set`/`set`/`SetDefault` (cache.go:68, 85), of `Add` (cache.go:106) and of a `Load` merge with a non-empty map (cache.go:1022) panic, while `Replace`, `Increment*` and `Decrement*` find no key and fail with "not found" before writing, and `Flush` installs a fresh map (cache.go:1077). The constructor takes the map as a value, so the model has neither sharing nor a nil map, and its writes never fail.
- `Entry.SetValue`: the source's type switch assigns only when the value has the cache's type `T`. Every payload of the model is a `Value<T>`, so the assignment always happens. This matches all of the source's own calls, which store a value of the kind they read.
- `Store.Cache.IncrementTyped`, `Store.Cache.DecrementTyped`: the 22 integer-typed methods are two methods parametrised by the integer kind. The delta is not required to lie in the kind's range, which the Go types guarantee.
- `int`, `uint` and `uintptr` are taken to be 64 bits wide.
