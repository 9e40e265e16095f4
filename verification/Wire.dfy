/** Base-128 varints and the mapping of the three integer types used by the game
    messages onto them (Protocol Buffers Encoding guide, "Base 128 Varints"). */
module Wire {

  type byte = b: int | 0 <= b < 256

  const TWO_31: int := 0x8000_0000
  const TWO_32: int := 0x1_0000_0000
  const TWO_63: int := 0x8000_0000_0000_0000
  const TWO_64: int := 0x1_0000_0000_0000_0000

  /** The longest encoding a reader accepts for one varint. */
  const MAX_VARINT_BYTES: nat := 10

  // ---------------------------------------------------------------- varints

  function EncodeVarint(n: nat): (s: seq<byte>)
    ensures s != []
  {
    if n < 128 then [n] else [n % 128 + 128] + EncodeVarint(n / 128)
  }

  datatype Varint = NoVarint | Varint(value: nat, len: nat)

  /** Reads at most `max` bytes; the value is not yet cut to a machine width. */
  function ReadVarintUpTo(s: seq<byte>, max: nat): (r: Varint)
    ensures r.Varint? ==> 1 <= r.len <= |s| && r.len <= max
    decreases |s|
  {
    if s == [] || max == 0 then NoVarint
    else if s[0] < 128 then Varint(s[0], 1)
    else
      match ReadVarintUpTo(s[1..], max - 1)
      case NoVarint => NoVarint
      case Varint(v, n) => Varint(s[0] - 128 + 128 * v, n + 1)
  }

  function ReadVarint64(s: seq<byte>): (r: Varint)
    ensures r.Varint? ==> 1 <= r.len <= |s| && r.value < TWO_64
  {
    match ReadVarintUpTo(s, MAX_VARINT_BYTES)
    case NoVarint => NoVarint
    case Varint(v, n) => Varint(v % TWO_64, n)
  }

  /** The 32-bit reader takes the same bytes and drops the upper bits. */
  function ReadVarint32(s: seq<byte>): (r: Varint)
    ensures r.Varint? ==> 1 <= r.len <= |s| && r.value < TWO_32
  {
    match ReadVarint64(s)
    case NoVarint => NoVarint
    case Varint(v, n) => Varint(v % TWO_32, n)
  }

  /** Bytes after a complete varint never change what is read. */
  lemma {:induction false} VarintIgnoresTail(s: seq<byte>, t: seq<byte>, max: nat)
    requires ReadVarintUpTo(s, max).Varint?
    ensures ReadVarintUpTo(s + t, max) == ReadVarintUpTo(s, max)
    decreases max
  {
    if s[0] >= 128 {
      VarintIgnoresTail(s[1..], t, max - 1);
      assert (s + t)[1..] == s[1..] + t;
    }
  }

  lemma {:induction false} VarintRoundTripUpTo(n: nat, t: seq<byte>, max: nat)
    requires |EncodeVarint(n)| <= max
    ensures ReadVarintUpTo(EncodeVarint(n) + t, max) == Varint(n, |EncodeVarint(n)|)
    decreases max
  {
    var s := EncodeVarint(n) + t;
    if n >= 128 {
      assert s[1..] == EncodeVarint(n / 128) + t;
      VarintRoundTripUpTo(n / 128, t, max - 1);
    }
  }

  /** Every 64-bit value is read back exactly, whatever follows it. */
  lemma VarintRoundTrip(n: nat, t: seq<byte>)
    requires n < TWO_64
    ensures ReadVarint64(EncodeVarint(n) + t) == Varint(n, |EncodeVarint(n)|)
    ensures n < TWO_32 ==> ReadVarint32(EncodeVarint(n) + t) == Varint(n, |EncodeVarint(n)|)
  {
    VarintLength(n);
    VarintRoundTripUpTo(n, t, MAX_VARINT_BYTES);
  }

  // ------------------------------------------------------------- varint sizes

  /** The comparison chains of the size calculator. */
  function VarintSize32(n: nat): nat
  {
    if n < 0x80 then 1
    else if n < 0x4000 then 2
    else if n < 0x20_0000 then 3
    else if n < 0x1000_0000 then 4
    else 5
  }

  function VarintSize64(n: nat): nat
  {
    if n < 0x8_0000_0000 then
      if n < 0x1000_0000 then VarintSize32(n) else 5
    else
      if n < 0x400_0000_0000 then 6
      else if n < 0x2_0000_0000_0000 then 7
      else if n < 0x100_0000_0000_0000 then 8
      else if n < 0x8000_0000_0000_0000 then 9
      else 10
  }

  /** Counted sizes equal the bytes written. */
  lemma {:induction false} VarintLength(n: nat)
    requires n < TWO_64
    ensures |EncodeVarint(n)| == VarintSize64(n) <= MAX_VARINT_BYTES
    ensures n < TWO_32 ==> |EncodeVarint(n)| == VarintSize32(n)
    decreases n
  {
    if n >= 128 {
      VarintLength(n / 128);
    }
  }

  lemma {:induction false} EncodeVarintMonotone(a: nat, b: nat)
    requires a <= b
    ensures |EncodeVarint(a)| <= |EncodeVarint(b)|
    decreases b
  {
    if a >= 128 {
      EncodeVarintMonotone(a / 128, b / 128);
    }
  }

  // ------------------------------------------------------------ integer types

  datatype IntType = UInt32 | Int32 | Int64

  predicate InRange(ty: IntType, v: int)
  {
    match ty
    case UInt32 => 0 <= v < TWO_32
    case Int32 => -TWO_31 <= v < TWO_31
    case Int64 => -TWO_63 <= v < TWO_63
  }

  /** What the writer puts on the wire: negative numbers, 32-bit ones included,
      are sign-extended to 64 bits. */
  function ToWire(ty: IntType, v: int): (u: nat)
    requires InRange(ty, v)
    ensures u < TWO_64
  {
    if v < 0 then v + TWO_64 else v
  }

  /** What the reader makes of a 64-bit varint: 32-bit types keep the low half. */
  function FromWire(ty: IntType, u: nat): (v: int)
    requires u < TWO_64
    ensures InRange(ty, v)
  {
    match ty
    case UInt32 => u % TWO_32
    case Int32 => var low := u % TWO_32; if low >= TWO_31 then low - TWO_32 else low
    case Int64 => if u >= TWO_63 then u - TWO_64 else u
  }

  /** UInt32Size, Int32Size and Int64Size. */
  function IntSize(ty: IntType, v: int): nat
    requires InRange(ty, v)
  {
    match ty
    case UInt32 => VarintSize32(v)
    case Int32 => if v < 0 then MAX_VARINT_BYTES else VarintSize32(v)
    case Int64 => VarintSize64(ToWire(ty, v))
  }

  /** Writing then reading is the identity on the whole range of each type, and
      the counted size is the number of bytes written (10 for any negative). */
  lemma IntInversion(ty: IntType, v: int, t: seq<byte>)
    requires InRange(ty, v)
    ensures var bytes := EncodeVarint(ToWire(ty, v));
      && ReadVarint64(bytes + t).Varint?
      && ReadVarint64(bytes + t).len == |bytes| == IntSize(ty, v) <= MAX_VARINT_BYTES
      && FromWire(ty, ReadVarint64(bytes + t).value) == v
      && (v < 0 ==> |bytes| == MAX_VARINT_BYTES)
      && (ty == UInt32 ==> |bytes| <= 5)
  {
    VarintRoundTrip(ToWire(ty, v), t);
    VarintLength(ToWire(ty, v));
  }
}
