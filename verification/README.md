# gotil: versioned hash table and linear congruential generator

This project models two parts of the Go package `gotil` in Dafny and proves
properties of the models.

**The hash table (`hash.go`).** It is an open-addressing table over a
power-of-two array of `KeyValue` slots. Each slot holds a cached hash, a key,
a value and a version stamp. A slot is live when its stamp equals the table's
`version`. `Clear` bumps `version` and sets `count` to 0 without touching a
slot, which makes every slot non-live at once. `Delete` sets a slot's stamp to 0.

`_put`, `Get` and `Delete` share one probe walk. The walk starts at
`(capacity - 1) & hash` and then steps by 1, 2, 3, ... modulo the capacity.
`_put` claims the first non-live slot on the walk, or overwrites the value of
the first live slot that holds the key. `Get` and `Delete` stop at the first
non-live slot.

`Put` doubles the table (`grow`) when `count / capacity > 0.60`, and then calls
`_put`. `grow` re-inserts the live slots of the old array, in slot order.

How the files map to the source:

- `bits.dfy` (module `Bits`): `uint32` as a range of integers, bitwise AND on
  naturals, and the mask `(capacity - 1) & x`. It proves that the mask is
  `x mod capacity` when the capacity is a power of two. It also holds the
  integer next-power-of-two that `Truncate` computes.
- `probing.dfy` (module `Probing`): the probe sequence. Probe i is
  `hash + i(i+1)/2` modulo the capacity. For a power-of-two capacity, the first
  `capacity` probes are pairwise distinct and cover every slot.
- `slots.dfy` (module `Slots`): the slot array as a sequence of values. `Scan`
  is the shared walk. `Lookup`, `Store` and `Erase` say what `Get`, `_put` and
  `Delete` do to the sequence. The lemmas prove:
  - round trips: put then get, and delete then get;
  - what a put or a delete leaves unchanged;
  - that the table invariant is kept;
  - that in a *consistent* table `Get` behaves like a map. In a consistent
    table, every live slot is the one the walk finds for its key.
- `hashtable.dfy` (module `VersionedHash`): class `HashTable`, with the fields
  of the Go struct. The slot array is a Dafny `array` that is updated in
  place. Each method is proved against the functions of `Slots`:
  - the probe loops of `_put` (`Insert`), `Get` and `Delete` carry loop
    invariants that tie them to `Scan`;
  - `grow` (`Grow`) is proved to produce a consistent table, in which each key
    maps to the value of its last live slot in the old array.
- `lcg.dfy` (module `Lcg`): class `LCGState` and the step
  `seed = (a * seed + c) % m`. Go's `int64` wrap-around and its
  truncating `%` are written out as `Wrap64` and `TRem`.
  - From a seed in `[0, 2^31)` nothing overflows, and the seed stays in that
    range for ever.
  - From other seeds the seed can turn negative.
  - Each method's new seed and result are functions of the old seed and the
    argument, so a replayed call sequence is deterministic.

Keys are modelled as `Key(id, hash)`. `hash` is what the key's `Hash()`
returns, and `Equal` is equality of keys. A key is a value type, so it cannot
be changed behind the table's back.

`Delete` can break a probe chain. It leaves a non-live slot, and `Get` and
`Delete` stop at the first non-live slot. So deleting a key can hide another
key that was pushed further along the same chain (`Slots.EraseHidesLaterKey`).
For that reason the map-like lemmas assume a consistent table. `Put`, `grow`,
`Clear` and `Truncate` keep a table consistent.

Three behaviours of hash.go are easy to miss, and the model keeps them:

- **When the table grows.** `Put` tests the load factor before it inserts
  (hash.go:52-56), so the count it tests does not yet include the new key.
  The twentieth distinct put into a new 32-slot table leaves 20 keys and no
  growth; the twenty-first finds 20 / 32 > 0.60 and grows the table to 64
  slots (`VersionedHash.LoadFactorScenario`).
- **A full table.** When `_put` finds no slot it only logs an error
  (hash.go:88); `Put` returns nothing, so the caller is not told.
- **What `Values` returns.** It appends `kv.Key` (hash.go:158), so it returns
  the keys (see Findings).

## Model

| member | source | states |
|---|---|---|
| `Bits.Mask` | hash.go:64 | the probe start `(capacity - 1) & hash` is below the capacity |
| `Bits.BitAndAtMost` | hash.go:84 | an AND never exceeds its operand, so a masked probe stays inside the array |
| `Bits.BitAndMask` | hash.go:84 | for a power-of-two capacity, masking with capacity - 1 is the remainder modulo the capacity |
| `Bits.NextPow2` | hash.go:181-182 | `2^ceil(log2 n)` is a power of two at least n, and half of it is below n |
| `Bits.NextPow2Least` | hash.go:181-182 | it is the least power of two that is at least n |
| `Probing.Probe` | hash.go:84-85 | every probe index is below the capacity |
| `Probing.ProbeNext` | hash.go:84-85 | the update `probe = (probe + step) & (capacity - 1); step++` moves from probe i to probe i + 1 |
| `Probing.ProbeTriangular` | hash.go:64-85 | probe i is (hash + i(i+1)/2) mod capacity |
| `Probing.ProbeDistinct` | hash.go:68-85 | the first `capacity` probes visit pairwise distinct slots |
| `Probing.ProbeCovers` | hash.go:68-85 | every slot is visited within the first `capacity` probes |
| `Slots.Scan` | hash.go:98-112 | the walk stops on a live slot with the hash and key, or on a non-live slot, at a probe not below its start and inside the array; otherwise it is exhausted |
| `Slots.ScanPasses` | hash.go:98-112 | every probe before the one where the walk stops is a live slot holding another key |
| `Slots.ScanSkips` | hash.go:68-86 | skipping probes that hold live slots with other keys does not change where the walk stops |
| `Slots.Lookup` | hash.go:91-115 | a value that Get returns is the value of a live slot holding the key |
| `Slots.LiveKeys` | hash.go:141-151 | Keys lists exactly one key per live slot |
| `Slots.LiveValues` | hash.go:153-163 | the intended Values lists exactly one value per live slot |
| `Slots.StoreAt` | hash.go:69-82 | at the probe where the walk stops, `_put` either claims the non-live slot with hash, key, value and version, or overwrites only the value of the slot holding the key |
| `Slots.EraseAt` | hash.go:124-132 | at the probe where the walk stops, Delete stamps the slot holding the key with 0, or changes nothing if the slot is not live |
| `Slots.ExhaustedMeansFull` | hash.go:68-88 | a walk that runs out of probes has found every slot live |
| `Slots.RoomMeansNotExhausted` | hash.go:68-88 | while some slot is not live, `_put` always finds a place, so the error branch at line 88 is not reached |
| `Slots.AllLiveCount` | hash.go:68-88 | when every slot is live, the live count is the array length |
| `Slots.LiveCountUpdate` | hash.go:70-81 | overwriting one slot changes the live count by that slot's change in liveness |
| `Slots.NoneLiveCount` | hash.go:175-178 | an array with no live slot has live count 0 |
| `Slots.AbsentNotFound` | hash.go:98-112 | Get does not find a key that no live slot holds |
| `Slots.NoneLive` | hash.go:175-178 | once every stamp is older than the version (new array, Clear, Truncate), the table is well formed with count 0 and consistent, and Get finds nothing |
| `Slots.StoreScan` | hash.go:61-89 | after `_put`, the walk for the stored key stops at the same probe on a live slot that holds it |
| `Slots.StoreThenLookup` | hash.go:61-89 | after `_put` finds a place, Get returns the value just stored |
| `Slots.StoreKeepsFound` | hash.go:61-89 | `_put` of one key leaves every other key that Get found where it was, with its value |
| `Slots.StoreLiveCount` | hash.go:70-81 | the live count grows by one exactly when `_put` claims a non-live slot |
| `Slots.StoreKeepsStamps` | hash.go:72-75 | `_put` stamps only with the current version and caches the key's hash |
| `Slots.StoreWellFormed` | hash.go:70-81 | `_put` keeps the invariant (power-of-two length, stamps at most the version, cached hashes, live slots at most count at most capacity), with count grown exactly when a slot is claimed |
| `Slots.ConsistentUnique` | hash.go:61-89 | in a consistent table no key is held by two live slots |
| `Slots.ConsistentFinds` | hash.go:91-115 | in a consistent table Get finds every live slot's key with its value |
| `Slots.StoreKeepsConsistent` | hash.go:61-89 | `_put` into a consistent table with a free slot keeps it consistent |
| `Slots.StoreUpdates` | hash.go:49-89 | on a consistent table with a free slot, `_put` acts on Get as a map update: the key maps to the new value and every other key is unchanged |
| `Slots.LastLiveOnly` | hash.go:205-209 | the value of the last live slot holding a key is the value of its only live slot |
| `Slots.LastLiveNone` | hash.go:205-209 | a key with no live slot has no last live value |
| `Slots.PrefixStep` | hash.go:205-209 | extending the part of the old array walked by grow by one slot adds that slot to the live count and to the last live values |
| `Slots.RehashStep` | hash.go:205-209 | re-inserting old slot j when it is live keeps the new array consistent, with no more live slots than old slots 0..j, and each key mapping to its last live value there |
| `Slots.ConsistentLastLive` | hash.go:91-115 | in a consistent table Get returns the value of the key's last live slot |
| `Slots.EraseScan` | hash.go:123-136 | after Delete the walk for the key no longer stops on a slot holding it |
| `Slots.EraseThenLookup` | hash.go:117-139 | Delete then Get: the key is not found |
| `Slots.EraseIdempotent` | hash.go:117-139 | deleting a key twice is deleting it once |
| `Slots.EraseLiveCount` | hash.go:125-128 | the live count drops by one exactly when Delete finds the key |
| `Slots.EraseKeepsStamps` | hash.go:127 | Delete only writes stamp 0, so stamps stay at most the version and hashes stay cached |
| `Slots.EraseWellFormed` | hash.go:117-139 | Delete keeps the invariant with count unchanged |
| `Slots.Store` | hash.go:68-88 | `_put`'s effect on the slot array: the length is kept (what it does to lookups is in the rows below) |
| `Slots.StoreChangesOneSlot` | hash.go:68-88 | `_put` changes at most one slot, and a changed slot holds the stored hash, key and value with a live stamp |
| `Slots.Erase` | hash.go:120-136 | Delete's effect on the slot array: the length is kept (what it does to lookups is in the rows below) |
| `Slots.EraseOnlyStamps` | hash.go:120-136 | Delete changes at most one slot, and only its stamp, which becomes 0; the slot held the key and was live |
| `Slots.EraseHidesLaterKey` | hash.go:125-131 | if two keys share a hash and occupy the first two probes, deleting the first leaves the second's slot live and untouched, but Get no longer finds it and the table is no longer consistent |
| `Slots.EraseThenStoreDuplicates` | hash.go:68-81 | in the same situation, a later `_put` of the second key claims the emptied first slot, so two live slots hold that key |
| `Slots.LiveKeysHeld` | hash.go:141-151 | a key is listed by Keys exactly when some live slot holds it |
| `Slots.LiveValuesHeld` | hash.go:153-163 | a value is listed by the intended Values exactly when some live slot holds it |
| `Slots.ValuesListsKeys` | hash.go:153-163 | Values as written lists the key Key(1, 1) of a table whose only entry has value Key(2, 2), and never that value |
| `VersionedHash.MakeSlots` | hash.go:44 | `make([]KeyValue, n)`: a fresh array of n slots, each with hash 0 and stamp 0 |
| `VersionedHash.HashTable.constructor` | hash.go:41-47 | NewHashTable: version 1, count 0, capacity 32 and a fresh array of 32 slots that all have stamp 0; the table is valid and consistent |
| `VersionedHash.HashTable.Insert` | hash.go:61-89 | `_put` leaves the array as `Store` of the old one, and raises count by one exactly when a non-live slot was claimed; the invariant is kept |
| `VersionedHash.HashTable.Put` | hash.go:49-59 | grows exactly when 5 count > 3 capacity, doubling the capacity; afterwards Get returns the value. Without growth the array is `Store` of the old one. With growth every other key maps to its last live value in the old array. A consistent table stays consistent, with every other key unchanged |
| `VersionedHash.HashTable.Grow` | hash.go:194-210 | a fresh array of twice the capacity, same version, count equal to the live slots and at most the old live count; the table is consistent and each key maps to its last live value in the old array |
| `VersionedHash.HashTable.Reinsert` | hash.go:206-208 | one iteration of grow's loop extends by one the prefix of the old array that the new one reflects, keeping count equal to the live slots |
| `VersionedHash.HashTable.Get` | hash.go:91-115 | returns `Lookup` of the slot array: Some(value) for ok, None otherwise |
| `VersionedHash.HashTable.Delete` | hash.go:117-139 | leaves the array as `Erase` of the old one, count unchanged; Get then does not find the key |
| `VersionedHash.HashTable.Keys` | hash.go:141-151 | the keys of the live slots in slot order |
| `VersionedHash.HashTable.ValuesAsWritten` | hash.go:153-163 | as written: the keys of the live slots in slot order |
| `VersionedHash.HashTable.Values` | hash.go:153-163 | as intended: the values of the live slots in slot order |
| `VersionedHash.HashTable.Len` | hash.go:165-168 | the count, which is at least the number of live slots and at most the capacity |
| `VersionedHash.HashTable.Cap` | hash.go:170-173 | the array length, a power of two |
| `VersionedHash.HashTable.Clear` | hash.go:175-178 | version + 1 and count 0, with the array untouched; Get finds nothing |
| `VersionedHash.HashTable.Truncate` | hash.go:180-192 | shrinks to a fresh array of `2^ceil(log2 newSize)` slots with version 1 when that is below the capacity, else clears; count is 0 and Get finds nothing |
| `VersionedHash.Grows` | hash.go:52-54 | the load-factor test over the integers; when it says no growth the table has a free slot, and when it says grow and count is within the capacity, the doubled table is at most 0.6 full |
| `VersionedHash.LoadFactorScenario` | hash.go:52-56 | twenty distinct puts into a new table give Len 20 and Cap 32; the twenty-first doubles Cap to 64 |
| `Lcg.Wrap64` | random.go:19 | int64 wrap-around: the int64 congruent to x modulo 2^64, equal to x when x fits |
| `Lcg.TRem` | random.go:19 | Go's `%`: congruent to x modulo the divisor, smaller than it in magnitude, with the sign of x |
| `Lcg.ToU64` | random.go:25 | `uint64(x)`: congruent to x modulo 2^64, equal to x when x is not negative |
| `Lcg.Step` | random.go:19 | the new seed lies strictly between -2^31 and 2^31 and is congruent to a * seed + c modulo 2^31, whatever wraps |
| `Lcg.StepInRange` | random.go:19 | from a seed in [0, 2^31), a * seed + c does not overflow int64 and the new seed is (a * seed + c) mod 2^31, again in [0, 2^31) |
| `Lcg.IterateInRange` | random.go:18-26 | a seed in [0, 2^31) stays there after any number of steps |
| `Lcg.LargeSeedGoesNegative` | random.go:14-20 | a seed of 2^61 steps to -2147471303, after which `Random(10)` returns -3 |
| `Lcg.LCGState.constructor` | random.go:10-12 | NewLCGState: m = 2^31, a = 1103515245, c = 12345, seed = s |
| `Lcg.LCGState.SetSeed` | random.go:14-16 | only the seed changes, to s |
| `Lcg.LCGState.Random` | random.go:18-21 | the seed advances by one step and the result is the seed's truncated remainder by max; from a seed in [0, 2^31) both are non-negative, the result below abs(max) |
| `Lcg.LCGState.URandom` | random.go:23-26 | the seed advances by one step and the result is uint64(seed) mod uint64(max), below uint64(max) and below max when max > 0; from a seed in [0, 2^31) and max > 0 it is seed mod max |

## Left out

- pool.go is not part of this model. It is a mutex-guarded free list, and it
  does not compile as written.
- The error log at hash.go:88 is left out. When no slot is found, `_put`
  leaves the table unchanged, and `Slots.RoomMeansNotExhausted` shows that
  `Put` never gets there.
- The `float32` load factor at hash.go:52-54 is replaced by the integer test
  `5 * count > 3 * capacity` (`VersionedHash.Grows`). For power-of-two
  capacities up to 2^22 the two tests agree. The quotient is exact in
  `float32`, and no such quotient lies above 0.6 but at or below
  `float32(0.60)`. They first differ at capacity 2^23 with count 5033165:
  there the quotient equals `float32(0.60)`, so Go does not grow but the
  model does.
- The floating-point `math.Log2`, `math.Ceil` and `math.Pow` of `Truncate` are
  replaced by the integer `Bits.NextPow2`. The model requires
  `1 <= newSize <= 2^31`: `Truncate(0)` would give capacity 0, and larger
  sizes overflow the `uint32` conversion.
- uint32 wrap-around of `version` and `capacity` is excluded by preconditions,
  not modelled. `Clear` (and `Truncate` when it clears) requires
  `version < 2^32 - 1`: a version that wrapped to 0 would make zeroed and
  deleted slots live again. `Put` requires `2 * capacity <= 2^31` when it
  grows, because `capacity << 1` would wrap to 0.
- `count`, the probe counters and `probe + step` cannot wrap: count is at most
  the capacity, and the capacity is at most 2^31. They are modelled as
  unbounded integers.
- The probe loops read `capacity` and `version` once into locals. The Go loops
  read the fields on every pass, but nothing changes them during a call.
- The body of `grow`'s loop is a separate method, `Reinsert`, so that its
  proof stands alone.
- The `Hashable` interface is modelled as the value type `Key(id, hash)` with
  `Equal` as `==`. Left out: keys whose `Equal` disagrees with `Hash`, nil
  keys, and keys mutated after insertion.
- `interface{}` values become a type parameter.
- A corrected `Delete` is not modelled. The source gives no way to tell a
  deleted slot (stamp 0) from a never-used slot of a fresh array (also stamp
  0), so there is no single evident fix for the broken chains that
  `Slots.EraseHidesLaterKey` exhibits.
- Concurrency is left out. The table is single-threaded, and the lock-free
  idea in the header comment at hash.go:8-9 is not implemented.
- Go `int` is taken to be 64 bits.
- A `HashTable` that does not come from `NewHashTable` (Go's zero value) has
  capacity 0, no slot array and version 0. Its `Put` never grows, because
  the load factor 0 / 0 is NaN and NaN > 0.60 is false, and `_put`'s loop
  runs zero times, so every key is dropped with a logged error. The methods
  require `Valid()`, which holds only for a table built by `NewHashTable`
  (and kept by every method), so this table is not modelled.
- An `LCGState` that does not come from `NewLCGState` has m = 0, and its
  `Random` would divide by zero. The methods require the fields that
  `NewLCGState` sets.
- `max == 0` makes `Random` and `URandom` panic in Go, so the model requires
  `max != 0`.

## Findings

| source | as written | input that shows it | evidently intended | confidence | as-written member | corrected member |
|---|---|---|---|---|---|---|
| hash.go:153-163 | `Values` appends `kv.Key`, so it returns the keys (its result type is `[]Hashable`) | a table whose only entry maps key Key(1, 1) to value Key(2, 2): Values lists Key(1, 1) and not Key(2, 2) | the values of the live slots, in slot order | high, not executed | `VersionedHash.HashTable.ValuesAsWritten` with `Slots.ValuesListsKeys` | `VersionedHash.HashTable.Values` with `Slots.LiveValuesHeld` |
