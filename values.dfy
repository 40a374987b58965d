/** The typed values of the parameter store (the ValueType enum and the
    ValueTypeMapping union of state.ts) and the width table the two transports
    share (modserver.ts:13, websocket.ts:14). */
module Values {
  import opened Wrappers
  import opened Bytes

  /** The numeric tag of ValueType: U8 = 0, I8, U16, I16, U32, I32, F32, F64,
      Boolean, String, Trigger = 10. */
  type ValueType = t: int | 0 <= t <= 10

  /** A stored (type, value) pair, as one closed union. Numbers are integral;
      floats are their IEEE-754 patterns; strings are UTF-8 bytes. */
  datatype Value =
    | U8(n: int) | I8(n: int) | U16(n: int) | I16(n: int) | U32(n: int) | I32(n: int)
    | F32(bits32: Bits32) | F64(bits64: Bits64)
    | Boolean(flag: bool) | String(text: seq<byte>) | Trigger(fired: bool)

  function TypeOf(v: Value): (t: ValueType)
    ensures v.String? <==> t == 9
    ensures v.Trigger? <==> t == 10
  {
    match v
    case U8(_) => 0
    case I8(_) => 1
    case U16(_) => 2
    case I16(_) => 3
    case U32(_) => 4
    case I32(_) => 5
    case F32(_) => 6
    case F64(_) => 7
    case Boolean(_) => 8
    case String(_) => 9
    case Trigger(_) => 10
  }

  /** The `sizes` table as written: the bytes reserved for a value of each type. */
  function Sizes(t: ValueType): nat
  {
    [1, 1, 2, 2, 4, 4, 4, 4, 1, 0, 0][t]
  }

  /** The width of the DataView store the encoding switch issues for a value
      (setUint8, setInt16, setFloat64, ...); strings and triggers issue none. */
  function StoreWidth(v: Value): nat
  {
    match v
    case U8(_) => 1
    case I8(_) => 1
    case U16(_) => 2
    case I16(_) => 2
    case U32(_) => 4
    case I32(_) => 4
    case F32(_) => 4
    case F64(_) => 8
    case Boolean(_) => 1
    case String(_) => 0
    case Trigger(_) => 0
  }

  /** The bytes that store writes, little-endian; a Boolean as `+value`, 0 or 1. */
  function StoreBytes(v: Value): (r: seq<byte>)
    ensures |r| == StoreWidth(v)
  {
    match v
    case U8(n) => LE(n, 1)
    case I8(n) => LE(n, 1)
    case U16(n) => LE(n, 2)
    case I16(n) => LE(n, 2)
    case U32(n) => LE(n, 4)
    case I32(n) => LE(n, 4)
    case F32(b) => b
    case F64(b) => b
    case Boolean(f) => [if f then 1 else 0]
    case String(_) => []
    case Trigger(_) => []
  }

  /** A zeroed region of `room` bytes after the typed store at offset 0: a store
      that runs past the region throws a RangeError instead. */
  function ValueField(v: Value, room: nat): (r: Result<seq<byte>>)
    ensures r.Ok? ==> |r.value| == room
  {
    if StoreWidth(v) <= room then Ok(StoreBytes(v) + Zeros(room - StoreWidth(v)))
    else Err(OutOfRange)
  }

  /** With the table as written, the typed store fits its field for every
      non-string type except F64, whose eight-byte store meets a four-byte field. */
  lemma SizesAsWritten(v: Value)
    requires !v.String?
    ensures ValueField(v, Sizes(TypeOf(v))).Err? <==> v.F64?
    ensures !v.F64? ==> ValueField(v, Sizes(TypeOf(v))) == Ok(StoreBytes(v))
  {
    if !v.F64? {
      assert Sizes(TypeOf(v)) == StoreWidth(v);
      assert StoreBytes(v) + Zeros(0) == StoreBytes(v);
    }
  }

  /** The table with F64 given the eight bytes its store takes. */
  function IntendedSizes(t: ValueType): nat
  {
    [1, 1, 2, 2, 4, 4, 4, 8, 1, 0, 0][t]
  }

  /** With the intended table every non-string value fills its field exactly. */
  lemma IntendedSizesFit(v: Value)
    requires !v.String?
    ensures IntendedSizes(TypeOf(v)) == StoreWidth(v)
    ensures ValueField(v, IntendedSizes(TypeOf(v))) == Ok(StoreBytes(v))
  {
    assert StoreBytes(v) + Zeros(0) == StoreBytes(v);
  }

  /** The value a reader obtains from the stored bytes of a type: unsigned or
      two's-complement little-endian integers, float patterns, a non-zero byte as
      true. Strings and triggers are not read this way. */
  function LoadValue(t: ValueType, bytes: seq<byte>): Option<Value>
    requires |bytes| >= (if t == 7 then 8 else Sizes(t))
  {
    if t == 0 then Some(U8(FromLE(bytes[..1])))
    else if t == 1 then Some(I8(Signed(FromLE(bytes[..1]), 1)))
    else if t == 2 then Some(U16(FromLE(bytes[..2])))
    else if t == 3 then Some(I16(Signed(FromLE(bytes[..2]), 2)))
    else if t == 4 then Some(U32(FromLE(bytes[..4])))
    else if t == 5 then Some(I32(Signed(FromLE(bytes[..4]), 4)))
    else if t == 6 then Some(F32(bytes[..4]))
    else if t == 7 then Some(F64(bytes[..8]))
    else if t == 8 then Some(Boolean(bytes[0] != 0))
    else None
  }

  /** The numbers each type can hold. */
  predicate InRange(v: Value)
  {
    match v
    case U8(n) => 0 <= n < 0x100
    case I8(n) => -0x80 <= n < 0x80
    case U16(n) => 0 <= n < 0x1_0000
    case I16(n) => -0x8000 <= n < 0x8000
    case U32(n) => 0 <= n < 0x1_0000_0000
    case I32(n) => -0x8000_0000 <= n < 0x8000_0000
    case _ => true
  }

  /** An unsigned field reads back the number stored in it. */
  lemma UnsignedLoad(n: int, w: nat)
    requires 0 <= n < Pow256(w)
    ensures FromLE(LE(n, w)[..w]) == n
  {
    assert LE(n, w)[..w] == LE(n, w);
    LERoundTrip(n, w);
    DivModUnique(n, Pow256(w), 0, n);
  }

  /** A two's-complement field reads back the number stored in it. */
  lemma SignedLoad(n: int, w: nat)
    requires w > 0 && -Pow256(w) <= 2 * n < Pow256(w)
    ensures Signed(FromLE(LE(n, w)[..w]), w) == n
  {
    assert LE(n, w)[..w] == LE(n, w);
    SignedRoundTrip(n, w);
  }

  /** Loading what a store wrote gives back every in-range value. */
  lemma StoreLoadRoundTrip(v: Value)
    requires !v.String? && !v.Trigger? && InRange(v)
    ensures LoadValue(TypeOf(v), StoreBytes(v)) == Some(v)
  {
    assert Pow256(1) == 0x100;
    assert Pow256(2) == 0x1_0000;
    assert Pow256(4) == 0x1_0000_0000;
    match v
    case U8(n) => UnsignedLoad(n, 1);
    case I8(n) => SignedLoad(n, 1);
    case U16(n) => UnsignedLoad(n, 2);
    case I16(n) => SignedLoad(n, 2);
    case U32(n) => UnsignedLoad(n, 4);
    case I32(n) => SignedLoad(n, 4);
    case F32(b) => assert b[..4] == b;
    case F64(b) => assert b[..8] == b;
    case Boolean(_) =>
  }
}
