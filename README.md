# RedioDB TTLStore in Dafny

A model of RedioDB's in-memory key-value store with lazy TTL expiry: the
`TTLStore` of `src/storage/ttl_store.rs`. A key holds one of four value
shapes: a scalar string, a list, a set or a hash. It may also carry an
absolute expiry instant. An expired entry is removed only when an
operation on that key next looks at it.

The project has five files:

- `optional.dfy`: Rust's `Option`.
- `decimal.dfy`: the decimal text and `i32` conversions that `incr` relies on. Rust's `str::parse::<i32>` is modelled as `ParseI32`, and `i32::to_string` as `FormatInt`. The round trip between them is proved.
- `store_model.dfy`: the value model (`StoreValue`, `Entry`, `Store`), the lazy-expiry check (`Evict`) and the observable contents at a given time (`View`). It also gives, for every store operation, a pure function from the store before the call to the store after it and the call's result (`GetStep`, `IncrStep`, ...). Their contracts state each operation's meaning in terms of the entry that is live at call time.
- `ttl_store.dfy`: the class `TTLStore`. Its methods update the `store` field in place, as the original does. Each method is proved to end in exactly the store, and return exactly the result, that its `...Step` function gives. `Keys` and `SMembers` are loops over a set, visited in arbitrary order, with invariants.
- `store_properties.dfy`: lemmas relating operations. They cover set then get, expiry, eviction being invisible, incr accumulating, append, keys patterns, list LIFO order, set idempotence, hash fields and replacement on a type mismatch.

Time is an explicit `now` argument: a monotonic clock reading in nanoseconds, in place of `Instant::now()`. A TTL is a span of nanoseconds, like `Duration`, so the whole-second truncation in `ttl` is modelled.

The model follows the code, including these behaviours a reader might not expect:

- `append` on a missing key returns `None` and creates nothing. There is no separate type error.
- `incr` on an unparsable scalar returns `None` and changes nothing.
- `expire` on a missing key returns `false`.
- `l_push`, `s_add`, `h_set` and `incr` silently replace a value of another shape. The container writes keep the old expiry. `incr` drops it.
- `keys` lists every matching key present when the call starts, including expired ones. It evicts the expired ones during the same call.

## Model

| member | source | states |
|---|---|---|
| Decimal.ParseI32 | RedioDB-v0.0.4/src/storage/ttl_store.rs:100 | `parse::<i32>` succeeds exactly when the text is well formed and its value lies in the 32-bit signed range, and then yields that value |
| Decimal.FormatNat | RedioDB-v0.0.4/src/storage/ttl_store.rs:103-104 | the digits written for a magnitude are all ASCII digits, have no leading zero, and read back as the same number |
| Decimal.ParseInt | RedioDB-v0.0.4/src/storage/ttl_store.rs:100 | yields a value exactly for Rust's signed-integer grammar (one or more ASCII digits, optionally after a single `+` or `-`); the value is that of the digits, negated after a `-` |
| Decimal.FormatInt | RedioDB-v0.0.4/src/storage/ttl_store.rs:103-104 | `to_string` writes a `-` exactly for negatives, then the canonical digits of the magnitude, and parsing that text gives the integer back |
| Decimal.ParseFormatI32 | RedioDB-v0.0.4/src/storage/ttl_store.rs:100-113 | `n.to_string().parse::<i32>()` is `Ok(n)` for every `i32`, so a value `incr` stored can be incremented again |
| Decimal.ParseIsLenient | RedioDB-v0.0.4/src/storage/ttl_store.rs:100 | parsing also accepts `+7` and `007`, which `to_string` never writes as 7 |
| Decimal.ParseRejectsMalformed | RedioDB-v0.0.4/src/storage/ttl_store.rs:100 | parsing rejects an empty text, a lone sign, two signs and a non-digit |
| Decimal.ParseI32Range | RedioDB-v0.0.4/src/storage/ttl_store.rs:100 | parsing refuses 2147483648 and accepts -2147483648, the `i32` bounds |
| StoreModel.Evict | RedioDB-v0.0.4/src/storage/ttl_store.rs:34-40 | the key is removed exactly when it has an expiry that `now` has reached; no other entry changes |
| StoreModel.SetStep | RedioDB-v0.0.4/src/storage/ttl_store.rs:43-49 | overwrites any prior entry of any shape with the scalar and expiry `now + ttl` (or none); the key is live at `now` unless the TTL is zero; nothing else changes |
| StoreModel.GetStep | RedioDB-v0.0.4/src/storage/ttl_store.rs:52-59 | returns a value exactly when the key holds a live scalar, and then returns that scalar; absent for missing, expired and non-scalar keys; the store is left evicted |
| StoreModel.ExpireStep | RedioDB-v0.0.4/src/storage/ttl_store.rs:62-70 | true exactly for a live key, whose value is kept and whose expiry becomes `now + ttl`; false for a missing or expired key, which is then absent; other keys unchanged |
| StoreModel.TtlStep | RedioDB-v0.0.4/src/storage/ttl_store.rs:74-88 | absent exactly for a key that is missing or expired; -1 exactly for a live key without expiry; otherwise the expiry lies after `now` and the answer is the whole seconds left, rounded down, so the `Some(0)` branch for an expiry at or before `now` is never taken |
| StoreModel.DelStep | RedioDB-v0.0.4/src/storage/ttl_store.rs:91-93 | true exactly when an entry, expired or not, was present; afterwards the key is absent and nothing else changed |
| StoreModel.IncrStep | RedioDB-v0.0.4/src/storage/ttl_store.rs:97-116 | fails exactly on a live scalar that does not parse as `i32`, leaving the store as it was; otherwise stores and returns the canonical `to_string` text of the old number (0 for a missing or non-scalar key) plus `amount`, which parses back to that sum, keeps a live scalar's expiry and drops any other entry's |
| StoreModel.AppendStep | RedioDB-v0.0.4/src/storage/ttl_store.rs:124-132 | succeeds exactly on a live scalar, storing and returning the old text followed by the suffix with the expiry kept; otherwise returns absent and the store is only evicted |
| StoreModel.Matches | RedioDB-v0.0.4/src/storage/ttl_store.rs:142 | the empty pattern, the key itself and any prefix of the key match; a pattern other than `*` that matches is no longer than the key |
| StoreModel.MatchingKeys | RedioDB-v0.0.4/src/storage/ttl_store.rs:136-147 | the keys `keys` lists are exactly the keys present at the start that match the pattern (`*` or substring containment), expired or not |
| StoreModel.EvictAll | RedioDB-v0.0.4/src/storage/ttl_store.rs:138-145 | after `keys` an entry remains exactly when it had not expired, and it is unchanged |
| StoreModel.LPushStep | RedioDB-v0.0.4/src/storage/ttl_store.rs:150-160 | the key holds the value followed by the earlier live list (or by nothing for a missing or non-list key), with the live entry's expiry or none; nothing else changes |
| StoreModel.LPopStep | RedioDB-v0.0.4/src/storage/ttl_store.rs:163-174 | returns a value exactly when the live list is non-empty, and then returns its head and stores its tail with the expiry kept; otherwise returns absent, and an empty list stays stored |
| StoreModel.SAddStep | RedioDB-v0.0.4/src/storage/ttl_store.rs:177-189 | the key holds the earlier live set (empty for a missing or non-set key) plus the member, with the live entry's expiry or none |
| StoreModel.SMembersStep | RedioDB-v0.0.4/src/storage/ttl_store.rs:192-199 | returns exactly the live set's members; empty for a missing, expired or non-set key; the store is only evicted |
| StoreModel.HSetStep | RedioDB-v0.0.4/src/storage/ttl_store.rs:202-218 | the key holds the earlier live hash (empty for a missing or non-hash key) with the field set to the value, and the live entry's expiry or none |
| StoreModel.HGetStep | RedioDB-v0.0.4/src/storage/ttl_store.rs:221-228 | returns a value exactly when the live hash has the field, and then that field's value |
| Storage.TTLStore.constructor | RedioDB-v0.0.4/src/storage/ttl_store.rs:26-30 | a new store is empty |
| Storage.TTLStore.CheckExpiry | RedioDB-v0.0.4/src/storage/ttl_store.rs:34-40 | the in-place removal leaves exactly `Evict` of the old store |
| Storage.TTLStore.Set | RedioDB-v0.0.4/src/storage/ttl_store.rs:43-49 | the in-place insert leaves exactly the store `SetStep` describes |
| Storage.TTLStore.Get | RedioDB-v0.0.4/src/storage/ttl_store.rs:52-59 | returns and leaves exactly what `GetStep` describes |
| Storage.TTLStore.Expire | RedioDB-v0.0.4/src/storage/ttl_store.rs:62-70 | the in-place expiry update returns and leaves exactly what `ExpireStep` describes |
| Storage.TTLStore.Ttl | RedioDB-v0.0.4/src/storage/ttl_store.rs:74-88 | returns and leaves exactly what `TtlStep` describes, including its unreachable `Some(0)` branch |
| Storage.TTLStore.Del | RedioDB-v0.0.4/src/storage/ttl_store.rs:91-93 | returns and leaves exactly what `DelStep` describes |
| Storage.TTLStore.Incr | RedioDB-v0.0.4/src/storage/ttl_store.rs:97-116 | the in-place parse, add and rewrite returns and leaves exactly what `IncrStep` describes, provided the `i32` sum does not overflow |
| Storage.TTLStore.Decr | RedioDB-v0.0.4/src/storage/ttl_store.rs:119-121 | is exactly `incr` with the amount negated |
| Storage.TTLStore.Append | RedioDB-v0.0.4/src/storage/ttl_store.rs:124-132 | the in-place `push_str` returns and leaves exactly what `AppendStep` describes |
| Storage.TTLStore.Keys | RedioDB-v0.0.4/src/storage/ttl_store.rs:136-147 | the loop returns each key of `MatchingKeys` exactly once, in no promised order, and leaves exactly `EvictAll` of the old store |
| Storage.TTLStore.LPush | RedioDB-v0.0.4/src/storage/ttl_store.rs:150-160 | `or_insert` followed by a head insert or a replacement leaves exactly the store `LPushStep` describes |
| Storage.TTLStore.LPop | RedioDB-v0.0.4/src/storage/ttl_store.rs:163-174 | the in-place head removal returns and leaves exactly what `LPopStep` describes |
| Storage.TTLStore.SAdd | RedioDB-v0.0.4/src/storage/ttl_store.rs:177-189 | leaves exactly the store `SAddStep` describes |
| Storage.TTLStore.SMembers | RedioDB-v0.0.4/src/storage/ttl_store.rs:192-199 | the collect loop returns each member of the live set exactly once, in no promised order, and leaves the store `SMembersStep` describes |
| Storage.TTLStore.HSet | RedioDB-v0.0.4/src/storage/ttl_store.rs:202-218 | leaves exactly the store `HSetStep` describes |
| Storage.TTLStore.HGet | RedioDB-v0.0.4/src/storage/ttl_store.rs:221-228 | returns and leaves exactly what `HGetStep` describes |
| StoreProperties.EvictKeepsView | RedioDB-v0.0.4/src/storage/ttl_store.rs:34-40 | lazy eviction of one key changes nothing a caller can observe at the same time |
| StoreProperties.EvictAllKeepsView | RedioDB-v0.0.4/src/storage/ttl_store.rs:138-145 | the eviction sweep of `keys` changes nothing a caller can observe |
| StoreProperties.ExpiredActsAbsent | RedioDB-v0.0.4/src/storage/ttl_store.rs:34-40 | on a key whose expiry has been reached, every key-targeted operation that checks expiry (all but `set` and `del`, which the next row covers) returns and leaves the same as if the key had never existed |
| StoreProperties.DelSeesExpired | RedioDB-v0.0.4/src/storage/ttl_store.rs:91-93 | `del` skips the expiry check: it reports removing an expired entry that `get` already reports absent |
| StoreProperties.DelView | RedioDB-v0.0.4/src/storage/ttl_store.rs:91-93 | after `del` the key is gone from what callers observe and nothing else observable changed |
| StoreProperties.GetAfterSet | RedioDB-v0.0.4/tests/integration_test.rs:14-27 | `get` at any time before the expiry `set` gave returns the value set |
| StoreProperties.GetAfterExpiry | RedioDB-v0.0.4/tests/integration_test.rs:29-37 | `get` at or after that expiry returns nothing, and the entry is evicted |
| StoreProperties.SetView | RedioDB-v0.0.4/src/storage/ttl_store.rs:43-49 | `set` makes the key observably hold the scalar, except that a zero TTL makes it expire at once |
| StoreProperties.TtlAfterExpire | RedioDB-v0.0.4/src/storage/ttl_store.rs:62-88 | after a successful `expire(key, d)`, `ttl` reports `d` in whole seconds, or absent when `d` is zero |
| StoreProperties.TtlAfterSetWithoutTtl | RedioDB-v0.0.4/src/storage/ttl_store.rs:43-88 | a key set without TTL reports the no-expiry sentinel -1 at any later time |
| StoreProperties.TtlRange | RedioDB-v0.0.4/src/storage/ttl_store.rs:74-88 | `ttl` never answers below -1, and answers 0 only when less than a second is left |
| StoreProperties.IncrAccumulates | RedioDB-v0.0.4/src/storage/ttl_store.rs:97-116 | after a successful `incr(key, a)`, `incr(key, b)` returns the text of the starting number plus a plus b |
| StoreProperties.IncrTwiceFromFresh | RedioDB-v0.0.4/src/storage/ttl_store.rs:108-113 | on a fresh key, `incr(key, a)` then `incr(key, b)` return the texts of a and a + b |
| StoreProperties.IncrFailureChangesNothing | RedioDB-v0.0.4/src/storage/ttl_store.rs:99-106 | a failed parse returns `None` and leaves the store exactly as it was |
| StoreProperties.CounterExample | RedioDB-v0.0.4/src/storage/ttl_store.rs:97-121 | on a fresh key, incr 5, incr 5 and decr 3 return "5", "10" and "7" |
| StoreProperties.AppendNeverCreates | RedioDB-v0.0.4/src/storage/ttl_store.rs:124-132 | `append` on a missing or expired key returns `None` and does not create the key |
| StoreProperties.GetAfterAppend | RedioDB-v0.0.4/src/storage/ttl_store.rs:124-132 | after `set(k, x)`, `append(k, y)` returns x followed by y, and a following `get` sees the same text |
| StoreProperties.MatchesEveryKey | RedioDB-v0.0.4/src/storage/ttl_store.rs:142 | both `*` and the empty pattern match every key |
| StoreProperties.KeysExample | RedioDB-v0.0.4/src/storage/ttl_store.rs:142 | over the keys a, ab and b, `*` selects all three and `a` selects a and ab, because the substring test is not anchored |
| StoreProperties.PushPopRestores | RedioDB-v0.0.4/src/storage/ttl_store.rs:150-174 | a pop right after a push onto a live list returns the pushed value and restores the store exactly |
| StoreProperties.PopAfterPush | RedioDB-v0.0.4/src/storage/ttl_store.rs:150-174 | whatever the key held, a pop right after a push returns the pushed value |
| StoreProperties.ListIsLifo | RedioDB-v0.0.4/src/storage/ttl_store.rs:150-174 | push a, push b, then pops return b, then a, then nothing, and the empty list stays stored |
| StoreProperties.EmptiedListStays | RedioDB-v0.0.4/src/storage/ttl_store.rs:163-174 | popping an empty live list returns nothing and changes nothing |
| StoreProperties.SAddIdempotent | RedioDB-v0.0.4/src/storage/ttl_store.rs:177-189 | adding the same member twice leaves the same store as adding it once |
| StoreProperties.MembersAfterSAdd | RedioDB-v0.0.4/src/storage/ttl_store.rs:177-199 | `s_members` after `s_add` is the earlier live set plus the new member, nothing else |
| StoreProperties.HGetAfterHSet | RedioDB-v0.0.4/src/storage/ttl_store.rs:202-228 | `h_get` of the field `h_set` just wrote returns the value written |
| StoreProperties.HSetKeepsOtherFields | RedioDB-v0.0.4/src/storage/ttl_store.rs:202-228 | `h_set` leaves every other field's `h_get` answer unchanged, whatever the key held before |
| StoreProperties.MismatchReplaces | RedioDB-v0.0.4/src/storage/ttl_store.rs:150-218 | `l_push`, `s_add` or `h_set` on a live key of another shape replaces it with a one-element container of its own shape and keeps the old expiry |

## Left out

- Storage.TTLStore.Incr: requires that the `i32` sum `num + amount` does not overflow. The original's `+` panics on overflow in a debug build and wraps in a release build, and neither outcome is modelled.
- StoreModel.IncrStep: the same no-overflow precondition as `Incr`.
- Storage.TTLStore.Decr: also requires `amount` to differ from the smallest `i32`, whose negation overflows in the original.
- Clock: every method takes one clock reading `now`. The original reads `Instant::now()` in `check_expiry` only for a key that has an expiry, so `keys` reads it once per key with an expiry. `set` reads it once, and only when given a TTL. `expire` reads it again after `check_expiry` when the key is present. `ttl` also reads it a second time, and only for a key with an expiry. With one reading, the `Some(0)` branch of `ttl` cannot be taken. With two readings a moment apart, it could be.
- Instant arithmetic: `Instant + Duration` panics in the original on overflow. Clock readings here are unbounded naturals. The `as i64` cast of the seconds in `ttl` is not modelled either, since it matters only for spans longer than 2^63 seconds.
- Iteration order: `HashMap` and `HashSet` iteration order is modelled as an arbitrary choice. `keys` and `s_members` promise no order.
- Text: strings are sequences of characters. Substring containment over characters agrees with Rust's byte-wise `str::contains` on valid UTF-8.
- Locking: the store sits behind one process-wide `Mutex` in `src/server/my_service.rs`, and each request makes exactly one store call under it. The model is therefore sequential and does not model threads.
- Service layer (`src/server/my_service.rs`): the gRPC request and response mapping is not part of this model. This includes turning a TTL of 0 into "no TTL" and turning an absent `ttl` into -1.
- Pub/sub (`src/pubsub.rs`): a wrapper over an asynchronous broadcast channel whose buffering and lag behaviour lives in a library. It is not part of this model.
- CLI, RocksDB store, metrics, start-up and the placeholder modules (transactions, cluster, security, query engine, consensus, inference, arrow cache) are not part of this model. They hold I/O, foreign-library calls or constant stubs.
