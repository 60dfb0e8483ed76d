# hashmaps in Dafny

A model of the four hash-map engines of `nutsalhan87/hashmaps`, a C library
of `uint64_t`-keyed maps whose values are opaque pointers owned by the map
(they are handed to a `value_free` callback when overwritten, deleted,
cleared or freed):

- **separate chaining** (`hashmap_sc`): an array of buckets, each a growable
  buffer of `(hash, key, value)` entries; the array doubles at three entries
  per bucket, splitting bucket `i` between `i` and `i + n`; delete moves the
  bucket's last entry into the gap.
- **linear probing** (`hashmap_lp`), **quadratic probing** (`hashmap_qp`) and
  **double hashing** (`hashmap_dh`): one flat array of slots that are vacant,
  occupied or released (a tombstone). Linear probing walks at most one round
  of the table and doubles it at load 0.7. Quadratic and double hashing give
  up after `floor(log2 slots_count)` probes, at which point an insert doubles
  the table and retries. Their rehash loops ignore that bound.

Every engine is a Dafny `class` over an `array` (`HashMap` in each module).
Its methods update the array in place and are proved against value-level
specification functions: `Inserted`, `Deleted`, `Grown` and `Cleared` over
buckets, and `Scan`, `Place`, `FirstFree`, `Rehash` and `Put` over slots.
Each class keeps a ghost `contents` map and a ghost `freed` log. `contents`
is the map the structure presents: what a lookup finds. `freed` is the
sequence of values passed to `value_free`. `Valid()` ties the array to both
and carries the engine's invariant:

- chaining: every entry sits in the bucket its hash picks, caches its hash,
  and keys are distinct;
- probing: every live entry caches its hash and is reachable from its home
  slot through non-vacant slots.

Modules:

- `Common`: 64-bit keys, `Option`, the `Outcome` of a quadratic or double
  insert, and floor-log2.
- `OpenAddressing`: the slot machine and probe-sequence algorithms shared by
  the three probing engines, with their lemmas.
- `LinearProbing`, `QuadraticProbing`, `DoubleHashing`, `SeparateChaining`:
  one module per engine.

The C sources return 0.7-style load checks in `double`. The model uses the
exact integer forms:

- `10 * entries >= 7 * slots` for linear and quadratic probing;
- `entries >= 3 * buckets` for chaining;
- the wrapping `uint64_t` expression `100 * entries / slots >= 70` of
  double hashing, written out.

The quadratic and double-hashing rehash can loop forever, or double a counter
past its width. Their inserts therefore return `Done`, `Diverges` or
`Overflows`, and only `Done` changes the map.

## Model

| member | source | states |
|---|---|---|
| Common.Log2 | implementations/quadratic_probing/hashmap_qp.c:45-53 | the probe bound `log2_64` computes: `2^r <= n < 2^(r+1)` |
| Common.Log2Unique | implementations/quadratic_probing/hashmap_qp.c:45-53 | any `k` with `2^k <= n < 2^(k+1)` is the floor-log2 |
| Common.Log2Double | implementations/quadratic_probing/hashmap_qp.c:75 | doubling the table raises `distance_limit` by exactly one |
| Common.Log2OfTen | implementations/quadratic_probing/hashmap_qp.c:99 | the initial bound `log2_64(10)` is 3, and 4 after the first doubling |
| Common.Lookup | implementations/linear_probing/hashmap_lp.c:127-138 | the value a find returns: `Some(m[k])` exactly when `k` is a key |
| OpenAddressing.Overloaded | implementations/linear_probing/hashmap_lp.c:32 | the grow test `entries / slots >= 0.7` of linear and quadratic probing (also hashmap_qp.c:111), stated exactly in integers as `10 * entries >= 7 * slots`; it is a definition without `ensures` |
| OpenAddressing.Idx | implementations/linear_probing/hashmap_lp.c:60-61 | the slot probe `t` examines lies inside the table |
| OpenAddressing.Scan | implementations/linear_probing/hashmap_lp.c:59-79 | the lookup loop stops at a vacant slot or the first live slot holding the key, and at no probe before it |
| OpenAddressing.Get | implementations/linear_probing/hashmap_lp.c:127-138 | a value a find returns is the value of some live slot holding the key |
| OpenAddressing.Place | implementations/linear_probing/hashmap_lp.c:104-115 | the insert stops at the first probe that is not occupied or holds the key itself |
| OpenAddressing.FirstFree | implementations/linear_probing/hashmap_lp.c:45-51 | the rehash loop stops at the first probe that is not occupied |
| OpenAddressing.Put | implementations/linear_probing/hashmap_lp.c:104-120 | a hit gets only the new value; any other slot becomes occupied by the new entry; no other slot changes |
| OpenAddressing.Cleared | implementations/linear_probing/hashmap_lp.c:161-166 | clear vacates exactly the occupied slots and keeps tombstones |
| OpenAddressing.LiveValues | implementations/linear_probing/hashmap_lp.c:161-166 | the values of the occupied slots in slot order, which is the order the clear and free loops pass them to `value_free`; it is a definition without `ensures`, and its length is fixed by `LiveValuesCount` |
| OpenAddressing.PresentsSome | implementations/linear_probing/hashmap_lp.c:127-138 | every table presents a map: the keys a lookup finds, with the values it returns |
| OpenAddressing.PresentsUnique | implementations/linear_probing/hashmap_lp.c:127-138 | a table presents one map only |
| OpenAddressing.RehashFrom | implementations/linear_probing/hashmap_lp.c:40-53 | the rehash loop from old slot `i` on: each occupied slot in turn into the first non-occupied probe of the new table, failing only when some slot finds none within the reach; the table keeps its size |
| OpenAddressing.Rehash | implementations/linear_probing/hashmap_lp.c:36-53 | a rehash that places every entry yields a table of the new size |
| OpenAddressing.RehashFromOccupants | implementations/linear_probing/hashmap_lp.c:40-53 | the rehash loop carries every live entry, and nothing else, into the new table |
| OpenAddressing.RehashFromShape | implementations/linear_probing/hashmap_lp.c:40-53 | the rehash drops tombstones, and the entries it places are reachable and keep their cached hashes |
| OpenAddressing.RehashKeepsEntries | implementations/linear_probing/hashmap_lp.c:36-56 | a resize keeps the multiset of live entries and their count |
| OpenAddressing.RehashFacts | implementations/linear_probing/hashmap_lp.c:36-56 | a resize keeps the live entries and leaves no tombstone, with every entry reachable |
| OpenAddressing.LiveNotCutOff | implementations/linear_probing/hashmap_lp.c:65-76 | a lookup of a key some live slot holds never stops at a vacant slot, given reachability |
| OpenAddressing.PlaceThenGet | implementations/linear_probing/hashmap_lp.c:104-120 | round trip: after the write of insert, a lookup of the key returns the new value |
| OpenAddressing.PutKeepsOthers | implementations/linear_probing/hashmap_lp.c:104-120 | an insert leaves the lookup of every other key unchanged |
| OpenAddressing.PutView | implementations/linear_probing/hashmap_lp.c:92-125 | on the presented map, an insert binds the key to the new value and changes nothing else |
| OpenAddressing.PutSlot | implementations/linear_probing/hashmap_lp.c:104-110 | the written slot was live only if the key was present, with its old value; without tombstones, exactly then |
| OpenAddressing.ReachableAfterOccupy | implementations/linear_probing/hashmap_lp.c:117-120 | occupying the first non-occupied probe keeps every live entry reachable |
| OpenAddressing.ReachableAfterWrite | implementations/linear_probing/hashmap_lp.c:149-150 | overwriting a value or releasing a slot keeps every live entry reachable |
| OpenAddressing.PutInvariants | implementations/linear_probing/hashmap_lp.c:104-122 | insert keeps reachability, cached hashes and `entries_count` equal to the live-slot count |
| OpenAddressing.WriteFacts | implementations/linear_probing/hashmap_lp.c:105-122 | the write of an insert as a whole: invariants kept, the presented map gets the key bound to the new value, one more entry exactly when the slot was not live, and a live slot written held the key with its old value |
| OpenAddressing.PlaceReaches | implementations/linear_probing/hashmap_lp.c:104-115 | an insert passes only slots held by other keys and stops at the first one that is not |
| OpenAddressing.PlaceOnLive | implementations/linear_probing/hashmap_lp.c:104-110 | an insert that lands on a live slot overwrites the entry a lookup finds, so an unfound key gets a new entry |
| OpenAddressing.FoundPlacesOnLive | implementations/linear_probing/hashmap_lp.c:104-110 | without tombstones, an insert of a found key lands on that very slot |
| OpenAddressing.ReleaseInvariants | implementations/linear_probing/hashmap_lp.c:145-153 | a delete keeps the invariants, and one live entry is gone |
| OpenAddressing.ReleaseLookups | implementations/linear_probing/hashmap_lp.c:145-153 | a delete changes no other key's lookup, and with unique keys the deleted key is no longer found |
| OpenAddressing.ReleaseView | implementations/linear_probing/hashmap_lp.c:140-154 | on the presented map, a delete can change only the deleted key, and with unique keys removes it |
| OpenAddressing.ClearedFacts | implementations/linear_probing/hashmap_lp.c:156-168 | after a clear nothing is live and every lookup misses |
| OpenAddressing.LiveValuesCount | implementations/linear_probing/hashmap_lp.c:174-178 | clear and free hand `value_free` exactly one value per live entry |
| OpenAddressing.UniqueTransfer | implementations/linear_probing/hashmap_lp.c:40-53 | a rehash keeps keys unique |
| OpenAddressing.KeysCarried | implementations/linear_probing/hashmap_lp.c:40-53 | tables with the same live entries hold the same keys |
| OpenAddressing.ClearSlots | implementations/linear_probing/hashmap_lp.c:161-166 | the clear loop: the slots become `Cleared` and the values handed to `value_free` are the live values in slot order |
| LinearProbing.Linear | implementations/linear_probing/hashmap_lp.c:45-51 | the linear probe rule: probe `t` looks `t` slots past the home slot `hash % slots` (the same walk at lines 60-76 and 100-115); it is a definition without `ensures`, and `LinearStep` and `LinearCovers` state its properties |
| LinearProbing.LinearStep | implementations/linear_probing/hashmap_lp.c:72-76 | the walk starts at the home slot, steps to the next slot wrapping at `n`, and is home again after `n` steps |
| LinearProbing.LinearCovers | implementations/linear_probing/hashmap_lp.c:65-76 | one round from the home slot visits every slot |
| LinearProbing.Target | implementations/linear_probing/hashmap_lp.c:99-115 | the slot the insert walk stops at in a table with a free slot: in the table and not held by another key |
| LinearProbing.LinearPlaceSome | implementations/linear_probing/hashmap_lp.c:104-115 | while a slot is free, the insert walk finds one within one round |
| LinearProbing.LinearFirstFreeSome | implementations/linear_probing/hashmap_lp.c:46-51 | while a slot is free, the rehash walk finds one within one round |
| LinearProbing.LinearRehashSome | implementations/linear_probing/hashmap_lp.c:36-53 | a table of `n` slots takes every live entry of a table holding at most `n` |
| LinearProbing.Grown | implementations/linear_probing/hashmap_lp.c:31-57 | the load check doubles and rehashes exactly at load 0.7, and leaves a free slot |
| LinearProbing.LinearFound | implementations/linear_probing/hashmap_lp.c:59-79 | a key held by a live slot is found, with that slot's value when keys are unique |
| LinearProbing.LinearMissed | implementations/linear_probing/hashmap_lp.c:59-79 | a lookup misses exactly when no live slot holds the key |
| LinearProbing.GrownKeepsLookups | implementations/linear_probing/hashmap_lp.c:31-57 | the load check keeps the invariants and every key, with its value when keys are unique |
| LinearProbing.PutKeepsUnique | implementations/linear_probing/hashmap_lp.c:97-125 | without tombstones, an insert keeps keys unique and creates no tombstone |
| LinearProbing.PutFacts | implementations/linear_probing/hashmap_lp.c:99-122 | the walk and write of an insert into a table with a free slot: invariants and presented map as above, and without tombstones a new entry exactly when the key was new |
| LinearProbing.GrownView | implementations/linear_probing/hashmap_lp.c:31-57 | the load check gains and loses no key; with unique keys the presented map is unchanged |
| LinearProbing.RehashInto | implementations/linear_probing/hashmap_lp.c:36-53 | the rehash loop builds exactly `Rehash` of the old slots in a fresh array |
| LinearProbing.FindInner | implementations/linear_probing/hashmap_lp.c:59-79 | returns the slot the one-round scan stops at, if that slot holds the key; the find value is `Get` |
| LinearProbing.ProbeFree | implementations/linear_probing/hashmap_lp.c:45-51 | the walk returns the slot of `FirstFree` |
| LinearProbing.ProbePlace | implementations/linear_probing/hashmap_lp.c:99-115 | the walk returns the slot of `Place` |
| LinearProbing.HashMap.constructor | implementations/linear_probing/hashmap_lp.c:81-90 | ten vacant slots, no entries, an empty map |
| LinearProbing.HashMap.ResizeIfLoadFactorExceeded | implementations/linear_probing/hashmap_lp.c:31-57 | the slots become `Grown`: keys, counts and freed values kept; fresh array exactly when overloaded |
| LinearProbing.HashMap.Find | implementations/linear_probing/hashmap_lp.c:127-138 | the result is the lookup of the key in the presented map |
| LinearProbing.HashMap.Insert | implementations/linear_probing/hashmap_lp.c:92-125 | slots become `Put` at the target of the grown table; key bound to the value; a replaced value is freed; count +1 for a new key |
| LinearProbing.HashMap.WriteEntry | implementations/linear_probing/hashmap_lp.c:99-124 | with a free slot, the key maps to the new value and nothing else changes |
| LinearProbing.HashMap.Delete | implementations/linear_probing/hashmap_lp.c:140-154 | found exactly when the key was present; the found slot becomes a tombstone and its value is freed; other keys unchanged |
| LinearProbing.HashMap.Clear | implementations/linear_probing/hashmap_lp.c:156-168 | slots become `Cleared`, count 0, empty map; every live value freed in slot order |
| LinearProbing.HashMap.Free | implementations/linear_probing/hashmap_lp.c:170-181 | every live value, in slot order, goes to `value_free` |
| LinearProbing.InsertFirst | implementations/linear_probing/hashmap_lp_test.c:64-77 | 999 lands in its home slot with its hash, key and value; one entry |
| LinearProbing.InsertAgain | implementations/linear_probing/hashmap_lp_test.c:79-83 | a second insert of 999 changes the value in place and keeps one entry |
| LinearProbing.FillToLimit | implementations/linear_probing/hashmap_lp_test.c:85-91 | keys 2 to 7 each add an entry and keep ten slots |
| LinearProbing.InsertEighth | implementations/linear_probing/hashmap_lp_test.c:92-96 | the eighth entry doubles the table to twenty |
| LinearProbing.InsertScenario | implementations/linear_probing/hashmap_lp_test.c:64-101 | the whole insert test |
| LinearProbing.FindScenario | implementations/linear_probing/hashmap_lp_test.c:103-116 | 777 is found with its value and 6666 is not |
| LinearProbing.DeleteHome | implementations/linear_probing/hashmap_lp_test.c:124-125 | with 555 and 777 in their own home slots, deleting 777 succeeds, leaves its slot released and one entry |
| LinearProbing.DeleteScenario | implementations/linear_probing/hashmap_lp_test.c:118-134 | the first delete of 777 succeeds and releases its slot; the next two fail; one entry left |
| QuadraticProbing.Quad | implementations/quadratic_probing/hashmap_qp.c:121 | the probe rule: home slot plus `t + t*t` in 64-bit arithmetic; its properties are in the lemmas below |
| QuadraticProbing.ProbesKeepParity | implementations/quadratic_probing/hashmap_qp.c:121 | in an even-sized table, every probe until the sum wraps has the home slot's parity |
| QuadraticProbing.QuadNoWrap | implementations/quadratic_probing/hashmap_qp.c:121 | until the 64-bit sum wraps, probe `t` is the home slot plus `t + t*t`, reduced modulo the slot count |
| QuadraticProbing.QuadPeriod | implementations/quadratic_probing/hashmap_qp.c:65-69 | probes `t` and `t + 2^64` pick the same slot |
| QuadraticProbing.QuadNeverFree | implementations/quadratic_probing/hashmap_qp.c:65-69 | a rehash search with no free slot in one 2^64-probe period meets only occupied slots at every probe, so `Diverges` is the C loop that never ends |
| QuadraticProbing.Grow | implementations/quadratic_probing/hashmap_qp.c:55-76 | `Overflows` exactly when doubling wraps the 32-bit count; `Done` gives a table of twice the size |
| QuadraticProbing.Settle | implementations/quadratic_probing/hashmap_qp.c:116-139 | an insert that succeeds never shrinks the table |
| QuadraticProbing.Inserted | implementations/quadratic_probing/hashmap_qp.c:106-140 | at load 0.7 the table grows first and the retry loop runs on the grown table, else on the same one |
| QuadraticProbing.FindInner | implementations/quadratic_probing/hashmap_qp.c:78-92 | the bounded scan's stop slot if it holds the key; the find value is `Get` within `distance_limit` probes |
| QuadraticProbing.ProbePlace | implementations/quadratic_probing/hashmap_qp.c:118-137 | one round returns the slot of `Place` within the bound, or nothing when there is none |
| QuadraticProbing.ProbeFree | implementations/quadratic_probing/hashmap_qp.c:65-69 | the rehash walk returns the slot of `FirstFree` over 2^64 probes, or reports that it never ends |
| QuadraticProbing.RehashInto | implementations/quadratic_probing/hashmap_qp.c:56-71 | the rehash loop builds exactly `Rehash` in a fresh array, or reports divergence |
| QuadraticProbing.HashMap.constructor | implementations/quadratic_probing/hashmap_qp.c:94-104 | ten vacant slots, no entries, probe bound 3 |
| QuadraticProbing.HashMap.ResizeMap | implementations/quadratic_probing/hashmap_qp.c:55-76 | on `Done` the slots are `Grow`, twice as many, bound +1, same entries; otherwise nothing changes |
| QuadraticProbing.HashMap.Find | implementations/quadratic_probing/hashmap_qp.c:142-153 | the result is the lookup of the key in the presented map |
| QuadraticProbing.HashMap.Insert | implementations/quadratic_probing/hashmap_qp.c:106-140 | outcome and slots as `Inserted`; on `Done` the key maps to the value; without a resize a new key adds one entry and an overwrite frees exactly the key's old value, and in a table without tombstones the count stays put exactly when the key was present |
| QuadraticProbing.HashMap.Retry | implementations/quadratic_probing/hashmap_qp.c:116-139 | outcome and slots as `Settle`; on `Done` without a resize the count and freed-value split of the insert, exact |
| QuadraticProbing.HashMap.Locate | implementations/quadratic_probing/hashmap_qp.c:116-138 | probing and resizing until a slot is found: the outcome of `Settle`, and on success the slot is the first uncrowded bounded probe of the final table, whose write gives `Settle`'s table; counts and freed log untouched |
| QuadraticProbing.HashMap.WriteEntry | implementations/quadratic_probing/hashmap_qp.c:123-135 | the write at the placed slot: the key maps to the new value and nothing else changes; either one more entry, or the key's old value freed; without tombstones the count stays put exactly for a present key |
| QuadraticProbing.HashMap.Delete | implementations/quadratic_probing/hashmap_qp.c:155-169 | found exactly when the key was present; tombstone and freed value; other keys unchanged |
| QuadraticProbing.HashMap.Clear | implementations/quadratic_probing/hashmap_qp.c:171-183 | slots become `Cleared`, count 0, empty map; every live value freed |
| QuadraticProbing.HashMap.Free | implementations/quadratic_probing/hashmap_qp.c:185-196 | every live value, in slot order, goes to `value_free` |
| DoubleHashing.Stride | implementations/double_hashing/hashmap_dh.c:83-91 | the probe rule `hash1 + hash2 * t` in 64-bit arithmetic; its properties are in the lemmas below |
| DoubleHashing.Exceeds | implementations/double_hashing/hashmap_dh.c:116 | the wrapping, truncating load check holds exactly when the wrapped product `100 * entries` reaches `70` times the slot count |
| DoubleHashing.QuotientAtLeast | implementations/double_hashing/hashmap_dh.c:116 | truncating division reaches `c` exactly when the dividend reaches `c` times the divisor |
| DoubleHashing.ExceedsExact | implementations/double_hashing/hashmap_dh.c:116 | until `100 * entries` wraps, the load check is exactly `10 * entries >= 7 * slots` |
| DoubleHashing.Grow | implementations/double_hashing/hashmap_dh.c:56-78 | `Overflows` exactly when doubling wraps the 64-bit count; `Done` gives a table of twice the size |
| DoubleHashing.Settle | implementations/double_hashing/hashmap_dh.c:122-142 | an insert that succeeds never shrinks the table |
| DoubleHashing.Inserted | implementations/double_hashing/hashmap_dh.c:111-143 | past the load check the table grows first and the retry loop runs on the grown table, else on the same one |
| DoubleHashing.StridePeriod | implementations/double_hashing/hashmap_dh.c:68-70 | probes `t` and `t + 2^64` pick the same slot |
| DoubleHashing.StrideNeverFree | implementations/double_hashing/hashmap_dh.c:67-71 | a rehash search with no free slot in one 2^64-probe period meets only occupied slots at every probe, so `Diverges` is the C loop that never ends |
| DoubleHashing.FindInner | implementations/double_hashing/hashmap_dh.c:80-95 | the bounded scan's stop slot if it holds the key; the find value is `Get` |
| DoubleHashing.ProbePlace | implementations/double_hashing/hashmap_dh.c:123-140 | one round returns the slot of `Place` within the bound, or nothing |
| DoubleHashing.ProbeFree | implementations/double_hashing/hashmap_dh.c:68-71 | the rehash walk returns the slot of `FirstFree` over 2^64 probes, or reports that it never ends |
| DoubleHashing.RehashInto | implementations/double_hashing/hashmap_dh.c:57-73 | the rehash loop builds exactly `Rehash` in a fresh array, or reports divergence |
| DoubleHashing.HashMap.constructor | implementations/double_hashing/hashmap_dh.c:97-109 | ten vacant slots, no entries, probe bound 3 |
| DoubleHashing.HashMap.ResizeMap | implementations/double_hashing/hashmap_dh.c:56-78 | on `Done` the slots are `Grow`, twice as many, bound +1, same entries; otherwise nothing changes |
| DoubleHashing.HashMap.Find | implementations/double_hashing/hashmap_dh.c:145-156 | the result is the lookup of the key in the presented map |
| DoubleHashing.HashMap.Insert | implementations/double_hashing/hashmap_dh.c:111-143 | outcome and slots as `Inserted`; on `Done` the key maps to the value; without a resize a new key adds one entry and an overwrite frees exactly the key's old value, and in a table without tombstones the count stays put exactly when the key was present |
| DoubleHashing.HashMap.Retry | implementations/double_hashing/hashmap_dh.c:122-142 | outcome and slots as `Settle`; on `Done` without a resize the count and freed-value split of the insert, exact |
| DoubleHashing.HashMap.Locate | implementations/double_hashing/hashmap_dh.c:122-141 | probing and resizing until a slot is found: the outcome of `Settle`, and on success the slot is the first uncrowded bounded probe of the final table, whose write gives `Settle`'s table; counts and freed log untouched |
| DoubleHashing.HashMap.WriteEntry | implementations/double_hashing/hashmap_dh.c:125-138 | the write at the placed slot: the key maps to the new value and nothing else changes; either one more entry, or the key's old value freed; without tombstones the count stays put exactly for a present key |
| DoubleHashing.HashMap.Delete | implementations/double_hashing/hashmap_dh.c:158-172 | found exactly when the key was present; tombstone and freed value; other keys unchanged |
| DoubleHashing.HashMap.Clear | implementations/double_hashing/hashmap_dh.c:174-186 | slots become `Cleared`, count 0, empty map; every live value freed |
| DoubleHashing.HashMap.Free | implementations/double_hashing/hashmap_dh.c:188-199 | every live value, in slot order, goes to `value_free` |
| DoubleHashing.InsertedAt | implementations/double_hashing/hashmap_dh.c:123-133 | without a resize, the key goes into the first of its bounded probes no other key holds |
| DoubleHashing.FakeHasher1 | implementations/double_hashing/hashmap_dh_test.c:46-48 | the test hasher `fake_hasher`: every key hashes to 1; it is a definition without `ensures` |
| DoubleHashing.FakeHasher2 | implementations/double_hashing/hashmap_dh_test.c:50-52 | the test hasher `fake_hasher2`: every key strides by 2; it is a definition without `ensures` |
| DoubleHashing.FakeProbe | implementations/double_hashing/hashmap_dh_test.c:46-52 | with the constant hashes 1 and 2, probe `t` is slot `2t + 1` |
| DoubleHashing.StackedRehashFrom | implementations/double_hashing/hashmap_dh.c:56-78 | the rehash of the resize test puts the three keys held in slots 1, 3, 5 of ten into slots 1, 3, 5 of twenty, each to its home or first free probe |
| DoubleHashing.StackedResize | implementations/double_hashing/hashmap_dh_test.c:162-166 | the fourth key finds its three probes taken, so the table doubles and the key takes slot 7 |
| DoubleHashing.StackedFind | implementations/double_hashing/hashmap_dh_test.c:168-170 | after the resize, a bounded lookup of each of keys 1 to 4 finds its own value |
| DoubleHashing.FakeSecond | implementations/double_hashing/hashmap_dh_test.c:105-109 | 777 finds slot 1 held and takes slot 3, one stride further |
| DoubleHashing.ConstructScenario | implementations/double_hashing/hashmap_dh_test.c:64-81 | ten vacant slots, no entries, probe bound 3 |
| DoubleHashing.FakeInsertScenario | implementations/double_hashing/hashmap_dh_test.c:83-114 | 999 in slot 1, overwritten there; 777 in slot 3; two entries |
| DoubleHashing.FakeResizeScenario | implementations/double_hashing/hashmap_dh_test.c:151-175 | keys 1 to 3 keep ten slots; key 4 doubles the table to twenty with bound 4; every key is found |
| SeparateChaining.Append | implementations/separate_chaining/hashmap_sc.c:118-129 | the entry goes after the others; an unallocated buffer gets room for one, a full one doubles, room is never lost |
| SeparateChaining.AppendAll | implementations/separate_chaining/hashmap_sc.c:54-65 | appending the moved entries one by one to bucket `i + n` keeps them in order after the entries already there and leaves the buffer large enough |
| SeparateChaining.SwapRemove | implementations/separate_chaining/hashmap_sc.c:160-163 | one entry fewer, the removed entry gone from the multiset, the last entry in its place, the others where they were |
| SeparateChaining.Position | implementations/separate_chaining/hashmap_sc.c:77-82 | the position found holds the key, and no earlier position does; no position means no entry holds it |
| SeparateChaining.Partition | implementations/separate_chaining/hashmap_sc.c:41-66 | the inner resize loop from position `j`: the entries already passed stay in place, the entries already moved stay first in the moved list in order, and no entry is lost in count |
| SeparateChaining.PartitionParts | implementations/separate_chaining/hashmap_sc.c:41-66 | the split loop keeps every entry: the stayers pick bucket `i` of `2n`, the movers do not |
| SeparateChaining.Split | implementations/separate_chaining/hashmap_sc.c:41-66 | the resize of one bucket makes two buckets that together hold as many entries as the old one; the first keeps the old buffer and capacity, and the second is within its capacity |
| SeparateChaining.Stays | implementations/separate_chaining/hashmap_sc.c:41-66 | the bucket left at `i`: the entries the swap-remove loop keeps, in the old buffer; a definition without `ensures`, whose properties are in `PartitionParts` and `GrownSplit` |
| SeparateChaining.Moves | implementations/separate_chaining/hashmap_sc.c:54-65 | the new bucket `i + n`: the moved entries appended in order to an unallocated buffer; a definition without `ensures`, whose properties are in `PartitionParts` and `GrownSplit` |
| SeparateChaining.Grown | implementations/separate_chaining/hashmap_sc.c:30-72 | the doubled bucket array: twice as many buckets, bucket `k` and `k + n` the two halves of the split of old bucket `k` |
| SeparateChaining.GrownSplit | implementations/separate_chaining/hashmap_sc.c:39-67 | splitting bucket `k` keeps its entries, distinct and within capacity, and each lands in the bucket its hash picks |
| SeparateChaining.ModDouble | implementations/separate_chaining/hashmap_sc.c:42-54 | an entry of bucket `i` of `n` picks bucket `i` or `i + n` of `2n` |
| SeparateChaining.GrownSound | implementations/separate_chaining/hashmap_sc.c:39-67 | splitting a sound bucket gives two sound buckets that share its entries |
| SeparateChaining.GrownFinds | implementations/separate_chaining/hashmap_sc.c:39-67 | after the resize, every key is in the bucket its hash picks |
| SeparateChaining.GrownKeeps | implementations/separate_chaining/hashmap_sc.c:30-72 | the resize keeps the map the buckets hold and the entry count |
| SeparateChaining.GrownSize | implementations/separate_chaining/hashmap_sc.c:30-72 | the resize keeps the entry count |
| SeparateChaining.ChainedLookup | implementations/separate_chaining/hashmap_sc.c:74-83 | a lookup in the map agrees with the search of the bucket the hash picks |
| SeparateChaining.Inserted | implementations/separate_chaining/hashmap_sc.c:96-133 | the insert on the bucket array: the array doubles exactly for a new key meeting the load limit, and otherwise only the key's bucket changes |
| SeparateChaining.Overloaded | implementations/separate_chaining/hashmap_sc.c:31 | the grow test: the array doubles once the entries reach three per bucket; it is a definition without `ensures` |
| SeparateChaining.AppendKeeps | implementations/separate_chaining/hashmap_sc.c:110-130 | appending a new key to its bucket adds it to the map and adds one entry |
| SeparateChaining.OverwriteKeeps | implementations/separate_chaining/hashmap_sc.c:101-105 | overwriting the found entry rebinds the key and keeps everything else |
| SeparateChaining.InsertedKeeps | implementations/separate_chaining/hashmap_sc.c:96-133 | insert keeps the invariant for the updated map; one entry more exactly for a new key; the array doubles exactly when a new key meets three entries per bucket |
| SeparateChaining.Deleted | implementations/separate_chaining/hashmap_sc.c:148-169 | the delete on the bucket array: only the key's bucket changes, and it keeps its capacity |
| SeparateChaining.SwapSound | implementations/separate_chaining/hashmap_sc.c:155-165 | the compaction leaves a sound bucket without the removed key |
| SeparateChaining.DeletedKeeps | implementations/separate_chaining/hashmap_sc.c:148-169 | delete keeps the invariant for the map without the key; one entry fewer exactly when the key was present |
| SeparateChaining.Cleared | implementations/separate_chaining/hashmap_sc.c:176-182 | every bucket emptied, its capacity kept |
| SeparateChaining.ClearedKeeps | implementations/separate_chaining/hashmap_sc.c:171-184 | after clear the array holds the empty map with no entries and the same buffers |
| SeparateChaining.SplitStep | implementations/separate_chaining/hashmap_sc.c:47-65 | a moved entry goes to bucket `i + n`, and the loop's bookkeeping holds after the swap |
| SeparateChaining.SplitBucket | implementations/separate_chaining/hashmap_sc.c:41-66 | the inner resize loop leaves exactly the two buckets of `Split` |
| SeparateChaining.GrowInto | implementations/separate_chaining/hashmap_sc.c:35-67 | a fresh array twice as long that holds exactly the split of every old bucket |
| SeparateChaining.HashMap.constructor | implementations/separate_chaining/hashmap_sc.c:85-94 | ten unallocated buckets, no entries, the empty map |
| SeparateChaining.HashMap.FindInner | implementations/separate_chaining/hashmap_sc.c:74-83 | the position of the key in its bucket, found exactly when the key is in the map, holding its value |
| SeparateChaining.HashMap.Find | implementations/separate_chaining/hashmap_sc.c:135-146 | the result is the lookup of the key in the map |
| SeparateChaining.HashMap.ResizeIfLoadFactorExceeded | implementations/separate_chaining/hashmap_sc.c:30-72 | at three entries per bucket, a fresh array equal to `Grown`; else nothing changes; the map and counts are kept |
| SeparateChaining.HashMap.Insert | implementations/separate_chaining/hashmap_sc.c:96-133 | buckets become `Inserted`; key bound to the value; a replaced value is freed; count +1 exactly for a new key; doubling exactly when a new key meets the load limit |
| SeparateChaining.HashMap.Overwrite | implementations/separate_chaining/hashmap_sc.c:101-105 | the found entry takes the new value and the old one is freed |
| SeparateChaining.HashMap.AppendNew | implementations/separate_chaining/hashmap_sc.c:108-130 | load check, then append of a new entry: one entry more, nothing freed |
| SeparateChaining.HashMap.Delete | implementations/separate_chaining/hashmap_sc.c:148-169 | found exactly when the key was present; buckets become `Deleted`; value freed; count -1; an absent key changes nothing |
| SeparateChaining.EntryValues | implementations/separate_chaining/hashmap_sc.c:178-180 | the values of one bucket, one per entry and in buffer order, the order the inner clear and free loops pass them to `value_free` |
| SeparateChaining.Values | implementations/separate_chaining/hashmap_sc.c:176-182 | the values of all buckets, bucket by bucket, the order of the `value_free` calls in clear and in free (lines 191-197); a definition without `ensures`, sized by `ValuesSize` |
| SeparateChaining.ValuesSize | implementations/separate_chaining/hashmap_sc.c:176-182 | clear and free hand `value_free` exactly one value per entry of the map |
| SeparateChaining.HashMap.Clear | implementations/separate_chaining/hashmap_sc.c:171-184 | buckets become `Cleared`, count 0, empty map; every value freed bucket by bucket |
| SeparateChaining.HashMap.EmptyBuckets | implementations/separate_chaining/hashmap_sc.c:176-182 | the clear loop: buckets become `Cleared` and their values are freed in order |
| SeparateChaining.HashMap.FreeBucket | implementations/separate_chaining/hashmap_sc.c:193-195 | every value of the bucket, in buffer order, goes to `value_free` |
| SeparateChaining.HashMap.Free | implementations/separate_chaining/hashmap_sc.c:186-200 | every value goes to `value_free`, bucket by bucket in buffer order |
| SeparateChaining.HashMap.FreeBuckets | implementations/separate_chaining/hashmap_sc.c:191-197 | the outer loop of the free: the values of every bucket, bucket by bucket in buffer order |
| SeparateChaining.ConstructScenario | implementations/separate_chaining/hashmap_sc_test.c:47-65 | ten buckets of size and capacity 0, no entries |
| SeparateChaining.InsertScenario | implementations/separate_chaining/hashmap_sc_test.c:67-95 | 666 stored with its hash, overwritten in place, then 777 in the next position of the same buffer; two entries; the first value freed |
| SeparateChaining.FindScenario | implementations/separate_chaining/hashmap_sc_test.c:97-112 | 666 and 777 found with their values, 6666 not |
| SeparateChaining.InsertPair | implementations/separate_chaining/hashmap_sc_test.c:115-119 | 777 then 666 inserted into one bucket of ten: two entries, 777 first in the buffer |
| SeparateChaining.DeleteScenario | implementations/separate_chaining/hashmap_sc_test.c:114-134 | the first delete of 777 succeeds, the next two fail; 666 moves to the front; one entry left |
| SeparateChaining.InsertThirty | implementations/separate_chaining/hashmap_sc_test.c:139-145 | keys 1 to 30 add one entry each and keep ten buckets |
| SeparateChaining.FindThirtyOne | implementations/separate_chaining/hashmap_sc_test.c:152-154 | every key 1 to 31 is found with its own value |
| SeparateChaining.ResizeScenario | implementations/separate_chaining/hashmap_sc_test.c:136-159 | 31 entries, and the thirty-first doubles the array to twenty buckets; all keys found |

## Left out

- Null `self` handles, `malloc`/`calloc`/`realloc` failure and the final `free` calls are not modelled. Arrays are Dafny arrays, bucket buffers are values (a sequence of entries plus a capacity), and `value_free` is a ghost log of the values handed to it.
- The hashers are parameters. Their bit mixing (the tests' splitmix-style function) is not modelled, and neither is the bit trick and de Bruijn table inside `log2_64`: `Common.Log2` is its specification.
- The `double` load checks `1. * entries / slots < 0.7` and `< 3` are replaced by their exact integer forms. This is exact for 32-bit counts.
- The `bool` result of every insert is always `true` for a non-null map and is dropped. The quadratic and double-hashing inserts return an `Outcome` instead.
- `QuadraticProbing.HashMap.Insert`: when the loop resized the table, the model does not claim that other keys are still found. A rehash can place an entry beyond `distance_limit` probes of its home slot, where the C lookup never looks. The key's own binding and the counts are stated.
- `DoubleHashing.HashMap.Insert`: the same as the quadratic insert, for the same reason.
- `LinearProbing.HashMap.Insert`: after a resize, and in tables with duplicate keys, the model states that the key set grows by the key and that the key maps to the new value, not that the rest of the map is unchanged. An insert whose probe walk meets a tombstone before the slot that already holds the key adds a second live entry for the key. Unique keys are therefore not an invariant of the probing engines, and the lemmas state the unique-key facts under that premise.
- `QuadraticProbing.HashMap.Delete`: when keys are not unique, the key can still be found after a delete. The contract says only that other keys are unaffected. The same holds for the linear and double-hashing deletes.
- The duplicated first probe of the quadratic rehash loop (`j = 0` re-examines the home slot) is merged into one probe. It reads the same slot in the same state.
- The quadratic and double-hashing retry loops are proved to end, but only because the model stops them with `Overflows` once doubling would wrap the slot counter. It is not proved that the C loop reaches a successful write before that point. A rehash that finds no free slot in a full period of its 64-bit counter ends in `Diverges`, where the C loop would never return.
- `LinearProbing.HashMap.Insert` and `LinearProbing.HashMap.ResizeIfLoadFactorExceeded` require the doubled slot count of an overloaded table to fit in 32 bits. They do not model the wrap of `self->slots_count *= 2` (hashmap_lp.c:56) on a table of 2^31 slots or more.
- `LinearProbing.DeleteSetUp` and `LinearProbing.DeleteScenario` take as a premise that 555 and 777 have different home slots in a table of ten, as the delete test's assertion on the home slot of 777 relies on. The scenarios hold for any hasher with that property.
- `SeparateChaining.HashMap.Insert`, `SeparateChaining.HashMap.ResizeIfLoadFactorExceeded` and `SeparateChaining.HashMap.AppendNew` require the new entry count and the doubled bucket count to fit in `uint32_t` rather than modelling their wrap-around. Bucket capacities are unbounded `nat`s.
- `SeparateChaining.InsertScenario` and `SeparateChaining.DeleteScenario` take as a premise that 666 and 777 share a bucket of ten, as the test file's assertions at lines 87 and 128-129 rely on. The scenarios hold for any hasher with that property.
- The find and delete tests of the double-hashing engine use the real mixing hashers, whose values are not modelled. Their set-up is covered by the generic contracts, not by concrete scenarios. There is no test file for the quadratic engine.
- The resize of the chaining engine splits each old bucket into two bucket values held by the loop, and writes both back. The C code works in place on the copied array. The entries and their order are the same either way.
- The C++ and Rust performance harnesses are not part of this model.
