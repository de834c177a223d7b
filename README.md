# Craft voxel map: packed entries and slot enumeration

This project models the voxel map of the Craft renderer, as declared in
`src/map.h`, and the integer helper macros of `src/util.h`.

A map stores voxels in an array of 64-bit slots. Each slot (`MapEntry`) is a
union: one 64-bit `value` overlaid on four 16-bit fields. The fields are the
unsigned local coordinates `x`, `y`, `z` and the signed block value `w`. A slot
is empty exactly when its `value` is zero (`EMPTY_ENTRY`). A `Map` holds a world
offset `dx`, `dy`, `dz`, a `mask`, a `size` and the slot array `data` of
`mask + 1` slots. `MAP_FOR_EACH` scans the slots `0..mask` in ascending order
and skips the empty ones. For every other slot it yields the stored
coordinates plus the offset, together with the stored `w`.

Modules:

- `Util` (`util.dfy`): `ABS`, `MIN`, `MAX` and `SIGN` as functions on `int`.
- `Entry` (`entry.dfy`): the 16- and 64-bit integer types. It also holds the
  struct view `Fields` and the codec `Pack`/`Unpack` between `Fields` and the
  64-bit word. `MapEntry` is the slot, stored as its word.
- `VoxelMap` (`map.dfy`): the `Map` class over an `array<MapEntry>`. It holds
  the pure specification `Enumerate` of one scan, the `ForEach` method whose
  loop is proved equal to that specification, and the lemmas about the scan.

Bit layout. The C union's bit positions depend on the host's byte order. The
model fixes the little-endian layout: `x` in bits 0-15, `y` in 16-31, `z` in
32-47 and `w` in two's complement in bits 48-63. The emptiness rule (the word
is zero exactly when all four fields are zero) holds under any layout.

The bodies of `map_alloc`, `map_free`, `map_copy`, `map_grow`, `map_set` and
`map_get` live in `map.c`; `map.c` is not part of this model, and
`src/map.h` gives only their prototypes. The constructor `Map.Alloc` and the
method `Map.CopyFrom` therefore rest on assumed behaviour, not read from the
source: allocation gives a zero-filled slot array with `size == 0`, and
copying duplicates offset, mask, size and every slot. Neither involves
hashing or probing.

## Model

| member | source | states |
|---|---|---|
| `Util.Abs` | src/util.h:15 | the result is `-x` when `x < 0` and `x` otherwise, so it is never negative |
| `Util.Min` | src/util.h:16 | the result is at most both arguments and is one of them |
| `Util.Max` | src/util.h:17 | the result is at least both arguments and is one of them |
| `Util.Sign` | src/util.h:18 | the result is 1, 0 or -1 exactly when `x` is positive, zero or negative |
| `Util.SignTimesAbs` | src/util.h:15-18 | `SIGN(x) * ABS(x) == x` for every `x` |
| `Util.MinMaxPair` | src/util.h:16-17 | `MIN(a,b) <= MAX(a,b)`, their sum is `a + b`, and together they are `{a, b}` |
| `Util.AbsInt32MinOverflows` | src/util.h:15 | on a 32-bit int, `ABS(x)` fits the type exactly when `x` is not `INT_MIN` |
| `Entry.ToBits16` | src/map.h:29 | the bit pattern stored for a signed 16-bit `w` is `w` modulo 2^16 |
| `Entry.FromBits16` | src/map.h:29 | the signed 16-bit value read from a bit pattern is congruent to the pattern modulo 2^16 |
| `Entry.Bits16RoundTrip` | src/map.h:29 | the signed 16-bit `w` and its two's-complement bit pattern convert into each other without loss |
| `Entry.Pack` | src/map.h:23-31 | the packed word holds `x` in its lowest 16 bits, then `y`, then `z`, and the bit pattern of `w` in its highest 16 bits |
| `Entry.Unpack` | src/map.h:23-31 | the word is recomposed from the four fields read from it, `x` lowest and the bit pattern of `w` highest |
| `Entry.UnpackPack` | src/map.h:23-31 | writing the four fields and reading them back through the 64-bit word returns them unchanged |
| `Entry.PackUnpack` | src/map.h:23-31 | every 64-bit word is the packing of its own four fields |
| `Entry.PackInjective` | src/map.h:23-31 | two field tuples pack to the same word only if they are equal |
| `Entry.PackZeroIff` | src/map.h:23-31 | the packed word is zero exactly when `x`, `y`, `z` and `w` are all zero |
| `Entry.FromFields` | src/map.h:23-31 | the slot built from a field tuple reads that tuple back through its struct view |
| `Entry.EmptyIffFieldsZero` | src/map.h:6 | `EMPTY_ENTRY` (value zero) holds exactly when the slot's four fields are all zero |
| `Entry.ZeroValueWithCoordinatesIsOccupied` | src/map.h:6 | a slot with `w == 0` but nonzero coordinates is not empty, and it reads back `w == 0` |
| `VoxelMap.VisitDeterminesSlot` | src/map.h:16-19 | a yielded tuple determines its slot: the coordinates minus the offset fit 16 bits, and with `ew` they rebuild the slot's word exactly |
| `VoxelMap.Enumerate` | src/map.h:8-21 | a scan of `n` slots yields at most `n` tuples |
| `VoxelMap.OccupiedSlots` | src/map.h:12-15 | the occupied slot indices, each below the slot count, each once, all of them, in ascending order |
| `VoxelMap.EnumerateBySlot` | src/map.h:12-19 | the k-th yielded tuple comes from the k-th occupied slot, so there is one tuple per occupied slot in ascending slot order and none for an empty slot |
| `VoxelMap.EnumerateCount` | src/map.h:12-15 | the number of tuples equals the number of non-empty slots, which is at most the slot count |
| `VoxelMap.EnumerateInWindow` | src/map.h:16-18 | every yielded coordinate lies in `[d, d + 65536)` for its offset component `d` |
| `VoxelMap.EnumerateAllEmpty` | src/map.h:12-15 | slots that are all empty yield no tuple |
| `VoxelMap.OccupiedIsEnumerated` | src/map.h:12-19 | every non-empty slot, at any index, has its tuple among the yielded tuples |
| `VoxelMap.ZeroValueIsEnumerated` | src/map.h:14-19 | a slot anywhere in the array with nonzero coordinates and `w == 0` is still yielded, with `ew == 0` |
| `VoxelMap.Map.Alloc` | src/map.h:42 | (assumed behaviour) a new map has the given offset and mask, `size == 0`, `mask + 1` slots all empty, and enumerates to nothing |
| `VoxelMap.Map.CopyFrom` | src/map.h:44 | (assumed behaviour) the destination gets the source's offset, mask, size and slots in a fresh array; the source is unchanged, and both enumerate to the same tuples |
| `VoxelMap.Map.ForEach` | src/map.h:8-21 | reads slots `0..mask` (the array holds exactly `mask + 1`). The result is the enumeration of the slot array, one tuple per non-empty slot, in ascending slot order, at most `mask + 1` of them. The map is only read |
| `VoxelMap.CounterAfter` | src/map.h:10-12 | the unsigned 32-bit counter `i` after `n` increments from 0 is `n` modulo 2^32 |
| `VoxelMap.ScanAsWrittenStops` | src/map.h:10-12 | for every `mask` below `0xFFFFFFFF`, the loop as written visits indices `0..mask` and then stops |
| `VoxelMap.ScanAsWrittenNeverStops` | src/map.h:10-12 | for `mask == 0xFFFFFFFF`, the guard `i <= mask` holds after any number of increments, and the counter repeats every 2^32 increments |

## Left out

- `map_get`, `map_set`, `map_grow` and `map_free`: only their prototypes are in `src/map.h` (lines 45-47 and 43). Their bodies are in `map.c`, which is not part of this model. So the model makes no claim about a hash function, a probe sequence, a growth threshold, or what `size` counts.
- `VoxelMap.Map.Alloc`: its zero-filled slots and `size == 0` are assumed, not read from the source, since only the prototype of `map_alloc` is in `src/map.h`. It requires a non-negative `mask`, while the prototype takes a signed `int`. A failed allocation is not modelled.
- `VoxelMap.Map.CopyFrom`: that `map_copy` duplicates offset, mask, size and every slot is assumed, not read from the source, since only its prototype is in `src/map.h`. It is modelled as giving the destination a fresh array. What `map_copy` does with the array the destination held before is not shown, and the model says nothing about it (Dafny arrays are garbage-collected).
- `VoxelMap.VisitOf`: yields `x + dx` as an unbounded integer. In C this sum is a 32-bit signed `int`, and it overflows (undefined behaviour) once `x + dx > INT_MAX`, which is possible only when `dx > INT_MAX - 65535`.
- `Util.Abs`: is stated over unbounded `int`. C's `ABS(INT_MIN)` overflows; `Util.AbsInt32MinOverflows` exhibits that edge only.
- The macros in `src/util.h` evaluate their arguments twice; arguments with side effects are not modelled.
- `MAP_FOR_EACH` runs a caller-supplied body for each tuple. `Map.ForEach` returns the sequence of tuples instead. A body that changes the map during the scan is not modelled.
- `PI`, `DEGREES`, `RADIANS` (floating point) and `LOG` (console output) from `src/util.h` are not modelled.
- The rendering, matrix and host-plugin code outside these two headers is not modelled.

## Findings

| source | as written | input that shows it | evidently intended | confidence | as-written member | corrected member |
|---|---|---|---|---|---|---|
| src/map.h:10-12 | `MAP_FOR_EACH` counts with a 32-bit `unsigned int i` and loops while `i <= map->mask`. When `mask` is `0xFFFFFFFF`, `i` wraps from `0xFFFFFFFF` to 0 and the guard never fails. | a map with `mask == 4294967295` (2^32 slots) | scan slots `0..mask` once and stop | low: needs a 2^32-slot table; not executed | `VoxelMap.ScanAsWrittenNeverStops` | `VoxelMap.Map.ForEach` |
