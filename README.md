# Open-addressing hash table

A Dafny model of `HashTable` in `src/HashTable.java`, a map from keys to
values that works as follows:

- It keeps its entries in one array of slots and resolves collisions by
  linear probing: the walk goes from the key's home slot
  `hash(key) % capacity` by `index = (index + 1) % capacity`.
- A slot is empty (`null`), holds a live entry, or holds a tombstone, which
  is an entry whose deleted flag is set.
- `remove` only sets that flag.
- `put` first searches for the key (`find`). If the key is new, a second
  scan stores it at the first null or tombstoned slot from its home.
- When `loadFactor * capacity <= size` after an insertion, the table
  doubles its capacity and re-inserts every live entry through `put`. That
  re-insertion can itself trigger a further doubling.

The model has two modules:

- `Slots` (`slots.dfy`) works on a plain sequence of slots. It holds:
  - the `Entry` datatype (key, value, deleted flag) and `Slot = Option<Entry>`;
  - the probe walk `Pos`/`Offset`/`Home`;
  - the table invariant `TableInv`:
    - no two live slots hold equal keys;
    - every live key is reached from its home slot through non-null slots;
    - a map `m` holds exactly the live pairs;
    - `|m|` is the live count.
  - one lemma per kind of slot update (insert at the insertion point,
    overwrite, tombstone) showing that the update keeps the invariant and
    what it does to the map.
- `OpenAddressing` (`hashtable.dfy`) has the class `HashTable`:
  - its fields are `hash`, `loadFactor`, `capacity`, `size`, the
    `elements` array, and a ghost `Contents` map of the live pairs;
  - its methods are proved against `Contents`;
  - `Wf()` is the shape plus `TableInv`, and `Valid()` adds
    `size == LiveCount`.

  Put, Insert, EnsureCapacity, ReinsertAll and Reinsert are mutually
  recursive, as in the source, where `ensureCapacity` calls `put`. Their
  termination measure is `(Budget, Slack, rank)`:
  - `Budget` is the capacity missing before `lf * capacity > 2`;
  - `Slack` is `size + 1 - floor(lf * capacity)`, or 0 when that is
    negative;
  - `GrowthMeasureDrops` proves that each nested rehash lowers the measure.
    Its arithmetic is in `FloorGap`, `ScaledAboveTwo` and `ScaledDoubling`.
  - `Rehashing(oldS, i, c0)` is the state of the rehash loop after `i` old
    slots. The loop and each of its iterations keep it.

`isFull` is the predicate `HashTable.IsFull`, over `AtThreshold`. The
`Entry` class becomes the `Entry` datatype:
- `new Entry(k, v)` is `Entry(k, v, false)`;
- `setValue` and `delete` replace the slot's value with an updated copy.

This is faithful because an entry object is never shared between slots:
the rehash builds new entries through `put`.

## Model

| member | source | states |
|---|---|---|
| OpenAddressing.NormalizedCapacity | src/HashTable.java:19-23 | the capacity kept is the requested one exactly when it lies in 1..Integer.MAX_VALUE-8, and 16 otherwise |
| OpenAddressing.NormalizedLoadFactor | src/HashTable.java:24-28 | the load factor kept is the requested one exactly when it lies in [0, 1], and 0.5 otherwise |
| OpenAddressing.HashTable.constructor | src/HashTable.java:18-30 | normalised capacity and load factor, every slot null, size 0 (below the capacity), empty contents, class invariant established |
| OpenAddressing.HashTable.Default | src/HashTable.java:10-12 | capacity 16, load factor 0.5, all slots null, size 0 (below the capacity), invariant established |
| OpenAddressing.HashTable.WithCapacity | src/HashTable.java:14-16 | normalised capacity, load factor 0.5, all slots null, size 0 (below the capacity), invariant established |
| OpenAddressing.HashTable.Find | src/HashTable.java:74-83 | the index returned is where the walk from home first reaches a null slot or a live slot with the key; every slot passed is non-null and not a live holder of the key; it is null exactly when the key is not live, and otherwise holds the key's current value; a tombstone is never returned |
| OpenAddressing.HashTable.Get | src/HashTable.java:51-57 | changes nothing; returns the live value for the key, or None when the key is not live |
| OpenAddressing.HashTable.Size | src/HashTable.java:70-72 | under the class invariant, the result is the number of live pairs |
| OpenAddressing.HashTable.FreeSlot | src/HashTable.java:39-42 | the index returned is the first null or tombstoned slot on the walk from the key's home, every slot before it live |
| OpenAddressing.HashTable.Put | src/HashTable.java:32-49 | contents become old contents with key mapped to value; returns the previous value or None; size grows by one exactly for a new key; the invariant is kept; a live key changes only its own slot, with array and capacity unchanged and no growth; a size below the capacity stays below it |
| OpenAddressing.HashTable.Insert | src/HashTable.java:39-47 | for a new key: size plus one and the key added to the contents; below the threshold, only the first null or tombstoned slot from home changes, and it becomes a live entry; at the threshold, a fresh array of at least twice the capacity with no tombstones and a null slot; a size below the capacity stays below it |
| OpenAddressing.HashTable.Remove | src/HashTable.java:59-68 | contents lose the key; returns the previous value or None; size drops by one exactly for a live key; only that slot changes (it becomes a tombstone keeping key and value); an absent key changes nothing |
| OpenAddressing.HashTable.Delete | src/HashTable.java:63-64 | the live slot becomes a tombstone with the same key and value, size drops by one, the key leaves the contents, and nothing else changes |
| OpenAddressing.HashTable.EnsureCapacity | src/HashTable.java:89-99 | a fresh array of at least twice the capacity, the same live pairs and size, no tombstones, and a null slot |
| OpenAddressing.HashTable.ReinsertAll | src/HashTable.java:93-98 | after the loop over the old array, the new table is well formed with no tombstones, the contents are the live pairs of the old slots in index order, and size is unchanged |
| OpenAddressing.HashTable.Reinsert | src/HashTable.java:94-97 | one more old slot is accounted for: a live one adds its pair to the contents through put, a null or tombstoned one adds nothing, the table stays well formed without tombstones, and size is restored |
| OpenAddressing.GrowthMeasureDrops | src/HashTable.java:45-46 | a rehash started at lf * c <= size re-inserts at capacity >= 2c with a strictly smaller (Budget, Slack), so nested growth stops when lf > 0 |
| OpenAddressing.PutThenGet | src/HashTable.java:32-57 | get(k) right after put(k, v) returns v, and the invariant holds |
| OpenAddressing.RemoveThenGet | src/HashTable.java:51-68 | get(k) and a second remove(k) right after remove(k) return nothing |
| OpenAddressing.NoNullSlotReachable | src/HashTable.java:32-68 | put(0), remove(0), put(1) at capacity 2 and load factor 1 gives a valid table with no null slot, in which the search for key 2 has no stopping slot |
| OpenAddressing.HashTable.Valid | src/HashTable.java:5-8 | the class invariant: the fields' shape, the slot invariant over `Contents`, and `size` counting the live slots, so that `size` is the number of live pairs and at most `capacity` |
| Slots.LiveCountBound | src/HashTable.java:7-8 | a table has no more live slots than slots |
| OpenAddressing.HashTable.IsFull | src/HashTable.java:85-87 | the table is at its threshold when `loadFactor * capacity <= size`; with a load factor in [0, 1], a size that has reached the capacity is always full |
| OpenAddressing.FloorGap | src/HashTable.java:91 | once `lf * c > 2`, doubling `c` raises `floor(lf * c)` by at least 2 |
| Slots.Pos | src/HashTable.java:80 | the slot `e` steps along the walk from `h` lies within the table |
| Slots.Home | src/HashTable.java:75 | the home slot is within the table |
| Slots.Offset | src/HashTable.java:80 | the walk from h reaches slot i after Offset(h, i, n) steps |
| Slots.PosStep | src/HashTable.java:80 | one step of `(index + 1) % n` is one step further along the walk |
| Slots.ProbeMiss | src/HashTable.java:76-82 | a search reaching a null slot after skipping every slot before it proves the key is absent from every live slot and from the contents |
| Slots.SearchBound | src/HashTable.java:76-81 | when a null slot or a live holder of the key exists, the walk from home reaches one of them within the table's length |
| Slots.SkipStep | src/HashTable.java:80 | stepping past an occupied slot without the key extends the run of skipped slots and moves to the next slot of the walk |
| Slots.NoSearchStop | src/HashTable.java:76-81 | with no null slot, a search for a key no live slot holds has no stopping slot |
| Slots.InsertPreserves | src/HashTable.java:39-44 | a new entry at the insertion point keeps the invariant, adds the pair to the map and one to the live count, and keeps the absence of tombstones |
| Slots.InsertionPointAtHome | src/HashTable.java:39-40 | when the home slot is null or tombstoned the insertion scan stops there |
| Slots.OverwritePreserves | src/HashTable.java:35-36 | overwriting a live slot's value keeps the invariant and the live count and maps the key to the new value |
| Slots.TombstonePreserves | src/HashTable.java:62-64 | tombstoning a live slot keeps the invariant, removes exactly its key from the map, lowers the live count by one, and keeps a null slot if there was one |
| Slots.EmptyTable | src/HashTable.java:29 | an all-null array satisfies the invariant for the empty map and has no tombstones |
| Slots.AbstractionUnique | src/HashTable.java:8 | the live slots determine the map of contents |
| Slots.NullSlotWithoutTombstones | src/HashTable.java:92-98 | with no tombstones and fewer live slots than slots there is a null slot |
| Slots.FullTableOccupied | src/HashTable.java:76 | a table with no null slot has every slot occupied |
| Slots.LiveMapKeys | src/HashTable.java:93-98 | the pairs collected from the first i old slots come from live slots among them, and there are at most i of them |
| Slots.LiveMapFresh | src/HashTable.java:94-95 | with unique keys, the key of the i-th live old slot is not yet among the pairs collected from the slots before it |
| Slots.LiveMapComplete | src/HashTable.java:93-98 | with unique keys, the pairs collected from all the old slots are exactly the old contents |

## Left out

- Floating point: `loadFactor` is a Dafny `real` with exact multiplication.
  This ignores rounding in `loadFactor * capacity` and the fact that NaN
  passes the constructor's range test.
- OpenAddressing.HashTable.Put needs `loadFactor > 0`, as do Insert,
  EnsureCapacity, ReinsertAll and Reinsert. The constructor accepts 0.
  With 0, every insertion starts a rehash, and each re-insertion inside it
  starts another. Each level doubles `capacity` and allocates
  `new Entry[capacity]` (src/HashTable.java:91-92). So after about 27
  levels the Java run ends in an OutOfMemoryError, or in a
  NegativeArraySizeException once `capacity *= 2` wraps to a negative int.
  With unbounded integers the same recursion would never end. The model
  does not represent this run.
- `hashCode() & Integer.MAX_VALUE` and `equals` are replaced by a
  deterministic `hash: K -> nat` given to the constructor and Dafny
  equality.
- Null keys (a NullPointerException in the source) are not modelled.
  Method results are `Option<V>`, so a null value cannot be confused with
  "absent".
- 32-bit overflow of `capacity *= 2` is not modelled. Integers are
  unbounded; the constructor's bound Integer.MAX_VALUE - 8 is kept as a
  plain comparison.
- OpenAddressing.HashTable.Find, Get, Put and Remove require a null slot
  unless the key is live. That is exactly when the source's search ends
  (NoSearchStop). The source does not maintain a null slot:
  NoNullSlotReachable reaches a table without one. So "some slot is null"
  is not part of the class invariant, and the model does not represent a
  search that never returns.
- FreeSlot, Insert, Delete, ReinsertAll and Reinsert are not separate
  methods in the source. They are the insertion scan of `put` (lines
  39-42), its insertion path (39-47), the body of remove's live branch
  (63-64), the loop of `ensureCapacity` (93-98) and one iteration of it
  (94-97). They are split out so that each proof stays small.
- `Entry` objects are not modelled as mutable heap objects. Since no entry
  is shared between slots, replacing a slot's value is equivalent to
  mutating it.
