/** Shared vocabulary: optional values, bytes and Go's fixed-width integers. */
module Base {

  datatype Option<+T> = None | Some(value: T)

  const TWO_31: int := 0x8000_0000
  const TWO_32: int := 0x1_0000_0000
  const TWO_63: int := 0x8000_0000_0000_0000
  const TWO_64: int := 0x1_0000_0000_0000_0000

  type byte = x: int | 0 <= x < 256
  type bytes = seq<byte>
  type uint32 = x: int | 0 <= x < 0x1_0000_0000
  type uint64 = x: int | 0 <= x < 0x1_0000_0000_0000_0000
  type int32 = x: int | -0x8000_0000 <= x < 0x8000_0000
  type int64 = x: int | -0x8000_0000_0000_0000 <= x < 0x8000_0000_0000_0000

  /** Go's conversions between widths: keep the low bits, reinterpret the sign. */
  function ToUint64(x: int): uint64 { x % TWO_64 }

  function ToUint32(x: int): uint32 { x % TWO_32 }

  function ToInt64(x: int): (r: int64)
    ensures -TWO_63 <= x < TWO_63 ==> r == x
    ensures TWO_63 <= x < TWO_64 ==> r == x - TWO_64
  {
    var u := x % TWO_64;
    if u < TWO_63 then u else u - TWO_64
  }

  function ToInt32(x: int): (r: int32)
    ensures -TWO_31 <= x < TWO_31 ==> r == x
  {
    var u := x % TWO_32;
    if u < TWO_31 then u else u - TWO_32
  }
}
