/** The Map struct of map.h and its MAP_FOR_EACH enumeration.

    A map keeps an integer offset (dx, dy, dz), a `mask`, a `size` and a slot
    array `data` of mask + 1 entries. MAP_FOR_EACH walks the slots 0..mask in
    ascending order, skips the empty ones and yields, for every other slot,
    the stored coordinates shifted by the offset together with the stored
    value. */
module VoxelMap {
  import opened Entry

  type int32 = x: int | -0x8000_0000 <= x < 0x8000_0000
  type uint32 = x: int | 0 <= x < WORD32

  const WORD32: int := 0x1_0000_0000
  const UINT32_MAX: int := WORD32 - 1

  /** One tuple (ex, ey, ez, ew) produced by MAP_FOR_EACH. */
  datatype Visit = Visit(x: int, y: int, z: int, w: int16)

  /** The tuple an occupied slot yields under the offset (dx, dy, dz). */
  function VisitOf(m: MapEntry, dx: int, dy: int, dz: int): Visit
  {
    Visit(m.E().x + dx, m.E().y + dy, m.E().z + dz, m.E().w)
  }

  /** A yielded tuple determines the slot it came from: removing the offset
      gives back 16-bit coordinates, and those with the value rebuild the
      slot exactly. */
  lemma VisitDeterminesSlot(m: MapEntry, dx: int, dy: int, dz: int)
    ensures var t := VisitOf(m, dx, dy, dz);
      0 <= t.x - dx < WORD16 && 0 <= t.y - dy < WORD16 && 0 <= t.z - dz < WORD16
      && m == FromFields(Fields(t.x - dx, t.y - dy, t.z - dz, t.w))
  {
    PackUnpack(m.value);
  }

  /** The tuples of an enumeration of `slots`, in slot order. */
  function Enumerate(slots: seq<MapEntry>, dx: int, dy: int, dz: int): (r: seq<Visit>)
    ensures |r| <= |slots|
  {
    if slots == [] then []
    else
      var last := slots[|slots| - 1];
      Enumerate(slots[..|slots| - 1], dx, dy, dz)
        + (if last.IsEmpty() then [] else [VisitOf(last, dx, dy, dz)])
  }

  /** The indices of the occupied slots of `slots`: exactly those, each once,
      in ascending order. */
  function OccupiedSlots(slots: seq<MapEntry>): (r: seq<nat>)
    ensures |r| <= |slots|
    ensures forall k :: 0 <= k < |r| ==> r[k] < |slots| && !slots[r[k]].IsEmpty()
    ensures forall i :: 0 <= i < |slots| && !slots[i].IsEmpty() ==> i in r
    ensures forall j, k :: 0 <= j < k < |r| ==> r[j] < r[k]
  {
    if slots == [] then []
    else
      var n := |slots| - 1;
      OccupiedSlots(slots[..n]) + (if slots[n].IsEmpty() then [] else [n])
  }

  /** The set of indices of occupied slots. */
  function OccupiedSet(slots: seq<MapEntry>): set<nat>
  {
    set i: nat | i < |slots| && !slots[i].IsEmpty()
  }

  /** The k-th tuple of an enumeration comes from the k-th occupied slot, so
      the enumeration yields one tuple per occupied slot, none for an empty
      one, in ascending slot order. */
  lemma {:induction false} EnumerateBySlot(slots: seq<MapEntry>, dx: int, dy: int, dz: int)
    ensures |Enumerate(slots, dx, dy, dz)| == |OccupiedSlots(slots)|
    ensures forall k :: 0 <= k < |OccupiedSlots(slots)| ==>
      Enumerate(slots, dx, dy, dz)[k] == VisitOf(slots[OccupiedSlots(slots)[k]], dx, dy, dz)
  {
    if slots != [] {
      var n := |slots| - 1;
      var front := slots[..n];
      EnumerateBySlot(front, dx, dy, dz);
      var before, idx := Enumerate(front, dx, dy, dz), OccupiedSlots(front);
      assert Enumerate(slots, dx, dy, dz)
        == before + (if slots[n].IsEmpty() then [] else [VisitOf(slots[n], dx, dy, dz)]);
      assert OccupiedSlots(slots) == idx + (if slots[n].IsEmpty() then [] else [n]);
      forall k | 0 <= k < |idx|
        ensures Enumerate(slots, dx, dy, dz)[k] == VisitOf(slots[OccupiedSlots(slots)[k]], dx, dy, dz)
      {
        assert OccupiedSlots(slots)[k] == idx[k];
        assert slots[idx[k]] == front[idx[k]];
      }
    }
  }

  /** The number of tuples is the number of occupied slots. */
  lemma {:induction false} EnumerateCount(slots: seq<MapEntry>, dx: int, dy: int, dz: int)
    ensures |Enumerate(slots, dx, dy, dz)| == |OccupiedSet(slots)| <= |slots|
  {
    if slots == [] {
      assert OccupiedSet(slots) == {};
    } else {
      var n := |slots| - 1;
      EnumerateCount(slots[..n], dx, dy, dz);
      if slots[n].IsEmpty() {
        assert OccupiedSet(slots) == OccupiedSet(slots[..n]);
      } else {
        assert OccupiedSet(slots) == OccupiedSet(slots[..n]) + {n};
        assert n !in OccupiedSet(slots[..n]);
      }
    }
  }

  /** Every tuple lies in the 16-bit window the offset opens: its coordinates
      minus the offset fit an unsigned 16-bit field. */
  lemma {:induction false} EnumerateInWindow(slots: seq<MapEntry>, dx: int, dy: int, dz: int)
    ensures forall t :: t in Enumerate(slots, dx, dy, dz) ==>
      dx <= t.x < dx + WORD16 && dy <= t.y < dy + WORD16 && dz <= t.z < dz + WORD16
  {
    if slots != [] {
      EnumerateInWindow(slots[..|slots| - 1], dx, dy, dz);
    }
  }

  /** An array of empty slots enumerates to nothing. */
  lemma {:induction false} EnumerateAllEmpty(slots: seq<MapEntry>, dx: int, dy: int, dz: int)
    requires forall i :: 0 <= i < |slots| ==> slots[i].IsEmpty()
    ensures Enumerate(slots, dx, dy, dz) == []
  {
    if slots != [] {
      EnumerateAllEmpty(slots[..|slots| - 1], dx, dy, dz);
    }
  }

  /** Every occupied slot, wherever it sits, has its tuple in the enumeration. */
  lemma {:induction false} OccupiedIsEnumerated(slots: seq<MapEntry>, i: nat, dx: int, dy: int, dz: int)
    requires i < |slots| && !slots[i].IsEmpty()
    ensures VisitOf(slots[i], dx, dy, dz) in Enumerate(slots, dx, dy, dz)
  {
    var n := |slots| - 1;
    if i < n {
      OccupiedIsEnumerated(slots[..n], i, dx, dy, dz);
    }
  }

  /** A slot holding nonzero coordinates and the value 0 is still enumerated,
      wherever it sits in the slot array, and its tuple carries ew == 0. */
  lemma ZeroValueIsEnumerated(slots: seq<MapEntry>, i: nat, f: Fields, dx: int, dy: int, dz: int)
    requires i < |slots| && slots[i] == FromFields(f)
    requires f.w == 0 && (f.x, f.y, f.z) != (0, 0, 0)
    ensures Visit(f.x + dx, f.y + dy, f.z + dz, 0) in Enumerate(slots, dx, dy, dz)
  {
    ZeroValueWithCoordinatesIsOccupied(f);
    OccupiedIsEnumerated(slots, i, dx, dy, dz);
    assert VisitOf(slots[i], dx, dy, dz) == Visit(f.x + dx, f.y + dy, f.z + dz, 0);
  }

  class Map {
    var dx: int32
    var dy: int32
    var dz: int32
    var mask: uint32
    var size: uint32
    var data: array<MapEntry>

    /** The slot array holds exactly the mask + 1 slots the enumeration visits. */
    ghost predicate Valid()
      reads this
    {
      data.Length == mask + 1
    }

    /** map_alloc: a map with the given offset and mask whose mask + 1 slots
        are all empty. */
    constructor Alloc(dx: int32, dy: int32, dz: int32, mask: int32)
      requires mask >= 0
      ensures Valid() && fresh(data)
      ensures this.dx == dx && this.dy == dy && this.dz == dz
      ensures this.mask == mask && size == 0
      ensures forall i :: 0 <= i < data.Length ==> data[i].IsEmpty()
      ensures Enumerate(data[..], dx, dy, dz) == []
    {
      this.dx, this.dy, this.dz := dx, dy, dz;
      this.mask := mask;
      size := 0;
      data := new MapEntry[mask + 1](_ => MapEntry(0));
      new;
      EnumerateAllEmpty(data[..], dx, dy, dz);
    }

    /** map_copy (this is the destination): the same offset, mask, size and
        slots as `src`, in a slot array of its own. */
    method CopyFrom(src: Map)
      requires src.Valid()
      modifies this
      ensures Valid() && fresh(data)
      ensures dx == old(src.dx) && dy == old(src.dy) && dz == old(src.dz)
      ensures mask == old(src.mask) && size == old(src.size)
      ensures data[..] == old(src.data[..])
      ensures src.data[..] == old(src.data[..])
      ensures Enumerate(data[..], dx, dy, dz) == old(Enumerate(src.data[..], src.dx, src.dy, src.dz))
    {
      var copy := new MapEntry[src.data.Length](i requires 0 <= i < src.data.Length reads src, src.data => src.data[i]);
      dx, dy, dz := src.dx, src.dy, src.dz;
      mask, size := src.mask, src.size;
      data := copy;
    }

    /** MAP_FOR_EACH: the tuples of the occupied slots 0..mask, in ascending
        slot order. The map is only read. The counter is an unbounded integer,
        so the scan also stops when mask is the largest 32-bit value, which the
        32-bit counter of the macro does not (see ScanAsWrittenNeverStops). */
    method ForEach() returns (out: seq<Visit>)
      requires Valid()
      ensures out == Enumerate(data[..], dx, dy, dz)
      ensures |out| == |OccupiedSet(data[..])| <= mask + 1
      ensures |out| == |OccupiedSlots(data[..])|
      ensures forall k :: 0 <= k < |out| ==> out[k] == VisitOf(data[OccupiedSlots(data[..])[k]], dx, dy, dz)
    {
      out := [];
      var i := 0;
      while i <= mask
        invariant 0 <= i <= mask + 1
        invariant out == Enumerate(data[..i], dx, dy, dz)
      {
        var entry := data[i];
        assert data[..i + 1][..i] == data[..i];
        if !entry.IsEmpty() {
          out := out + [VisitOf(entry, dx, dy, dz)];
        }
        i := i + 1;
      }
      assert data[..i] == data[..];
      EnumerateCount(data[..], dx, dy, dz);
      EnumerateBySlot(data[..], dx, dy, dz);
    }
  }

  /* The loop counter of MAP_FOR_EACH, as written: a 32-bit unsigned `i`
     starting at 0, incremented with wrap-around, the loop running while
     i <= mask. */

  /** The as-written counter after `n` increments: the step count modulo 2^32. */
  function CounterAfter(n: nat): (i: uint32)
    ensures i == n % WORD32
  {
    if n == 0 then 0
    else
      IncrementMod32(n - 1);
      (CounterAfter(n - 1) + 1) % WORD32
  }

  /** Incrementing a residue modulo 2^32 with wrap-around gives the residue
      of the successor. */
  lemma IncrementMod32(m: nat)
    ensures (m % WORD32 + 1) % WORD32 == (m + 1) % WORD32
  {
    var q, r := m / WORD32, m % WORD32;
    assert m + 1 == WORD32 * q + r + 1;
    if r == UINT32_MAX {
      assert m + 1 == WORD32 * (q + 1);
    }
  }

  /** For every mask but the largest, the as-written loop stops after exactly
      mask + 1 iterations, having visited each slot index once. */
  lemma ScanAsWrittenStops(mask: uint32)
    requires mask < UINT32_MAX
    ensures forall n: nat :: n <= mask ==> CounterAfter(n) == n <= mask
    ensures CounterAfter(mask + 1) > mask
  {
  }

  /** With mask == 0xFFFFFFFF the as-written loop never stops: after any
      number of increments the guard i <= mask still holds, and every 2^32
      increments the counter is back where it was. */
  lemma ScanAsWrittenNeverStops(mask: uint32, n: nat)
    requires mask == UINT32_MAX
    ensures CounterAfter(n) <= mask
    ensures CounterAfter(n + WORD32) == CounterAfter(n)
  {
    var q, r := n / WORD32, n % WORD32;
    assert n + WORD32 == WORD32 * (q + 1) + r && 0 <= r < WORD32;
    assert (n + WORD32) % WORD32 == r;
  }
}
