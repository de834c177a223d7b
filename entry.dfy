/** The MapEntry union of map.h: one 64-bit word overlaid on four 16-bit
    fields, unsigned x, y, z and signed w.

    Which bits of the word a field occupies depends on the host's byte order.
    This model fixes the little-endian layout: x in bits 0-15, y in bits
    16-31, z in bits 32-47 and w, in two's complement, in bits 48-63. The
    emptiness rule (the word is zero exactly when every field is zero) holds
    for any layout. */
module Entry {

  const WORD16: int := 0x1_0000
  const WORD64: int := 0x1_0000_0000_0000_0000

  type uint16 = x: int | 0 <= x < WORD16
  type int16 = x: int | -0x8000 <= x < 0x8000
  type uint64 = x: int | 0 <= x < WORD64

  /** The struct view `e` of the union. */
  datatype Fields = Fields(x: uint16, y: uint16, z: uint16, w: int16)

  const ZERO_FIELDS: Fields := Fields(0, 0, 0, 0)

  /** The 16-bit two's-complement pattern of a signed 16-bit value. */
  function ToBits16(w: int16): (u: uint16)
    ensures u == w % WORD16
  {
    if w < 0 then w + WORD16 else w
  }

  /** The signed value a 16-bit two's-complement pattern stands for. */
  function FromBits16(u: uint16): (w: int16)
    ensures w % WORD16 == u
  {
    if u < 0x8000 then u else u - WORD16
  }

  lemma Bits16RoundTrip(w: int16, u: uint16)
    ensures FromBits16(ToBits16(w)) == w
    ensures ToBits16(FromBits16(u)) == u
  {
  }

  /** Splitting a number written as `low + WORD16 * high` by WORD16. */
  lemma SplitLow16(low: int, high: int)
    requires 0 <= low < WORD16 && 0 <= high
    ensures (low + WORD16 * high) / WORD16 == high
    ensures (low + WORD16 * high) % WORD16 == low
  {
  }

  /** The 64-bit word whose struct view is `f`: x in the lowest 16 bits,
      then y, then z, and the bit pattern of w in the highest 16 bits. */
  function Pack(f: Fields): (v: uint64)
    ensures v % WORD16 == f.x
    ensures (v / WORD16) % WORD16 == f.y
    ensures (v / WORD16 / WORD16) % WORD16 == f.z
    ensures v / WORD16 / WORD16 / WORD16 == ToBits16(f.w)
  {
    var hi := f.z + WORD16 * ToBits16(f.w);
    assert 0 <= hi < WORD16 * WORD16;
    var mid := f.y + WORD16 * hi;
    assert 0 <= mid < WORD16 * WORD16 * WORD16;
    SplitLow16(f.x, mid);
    SplitLow16(f.y, hi);
    SplitLow16(f.z, ToBits16(f.w));
    f.x + WORD16 * mid
  }

  /** The struct view of a 64-bit word: the word is recomposed from the
      four fields, x lowest and the bit pattern of w highest. */
  function Unpack(v: uint64): (f: Fields)
    ensures v == f.x + WORD16 * (f.y + WORD16 * (f.z + WORD16 * ToBits16(f.w)))
  {
    var q1 := v / WORD16;
    var q2 := q1 / WORD16;
    var q3 := q2 / WORD16;
    assert q3 < WORD16;
    Bits16RoundTrip(0, q3);
    assert q2 == q2 % WORD16 + WORD16 * q3;
    assert q1 == q1 % WORD16 + WORD16 * q2;
    assert v == v % WORD16 + WORD16 * q1;
    Fields(v % WORD16, q1 % WORD16, q2 % WORD16, FromBits16(q3))
  }

  /** Writing the fields and reading them back through the word gives them back. */
  lemma UnpackPack(f: Fields)
    ensures Unpack(Pack(f)) == f
  {
    var v := Pack(f);
    Bits16RoundTrip(f.w, 0);
    assert Unpack(v).x == f.x && Unpack(v).y == f.y && Unpack(v).z == f.z;
  }

  /** Every 64-bit word is the packing of its own struct view. */
  lemma PackUnpack(v: uint64)
    ensures Pack(Unpack(v)) == v
  {
  }

  /** The word is zero exactly when all four fields are zero, whatever the layout. */
  lemma PackZeroIff(f: Fields)
    ensures Pack(f) == 0 <==> f == ZERO_FIELDS
  {
    if Pack(f) == 0 {
      UnpackPack(f);
      assert Unpack(0) == ZERO_FIELDS;
    }
  }

  /** Packing is one-to-one: distinct struct views never share a word. */
  lemma PackInjective(f: Fields, g: Fields)
    ensures Pack(f) == Pack(g) <==> f == g
  {
    UnpackPack(f);
    UnpackPack(g);
  }

  /** One slot of the map: the union, stored as its 64-bit `value`; the
      struct view `e` is read through Unpack. */
  datatype MapEntry = MapEntry(value: uint64)
  {
    /** EMPTY_ENTRY: the slot holds the all-zero word. */
    predicate IsEmpty() {
      value == 0
    }

    function E(): Fields {
      Unpack(value)
    }
  }

  /** The slot whose struct view is `f`. */
  function FromFields(f: Fields): (m: MapEntry)
    ensures m.E() == f
  {
    UnpackPack(f);
    MapEntry(Pack(f))
  }

  /** A slot is empty if and only if its coordinates and its value are all zero. */
  lemma EmptyIffFieldsZero(m: MapEntry)
    ensures m.IsEmpty() <==> m.E() == ZERO_FIELDS
  {
    PackUnpack(m.value);
    PackZeroIff(m.E());
  }

  /** w == 0 alone does not make a slot empty: a slot with nonzero coordinates
      and a zero value is occupied, and reads back its zero value. */
  lemma ZeroValueWithCoordinatesIsOccupied(f: Fields)
    requires f.w == 0 && (f.x, f.y, f.z) != (0, 0, 0)
    ensures !FromFields(f).IsEmpty()
    ensures FromFields(f).E().w == 0
  {
    PackZeroIff(f);
  }
}
