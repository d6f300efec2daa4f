/** Fixed-width integers of the C++ sources, with the truncations written out. */
module MachineInts {

  const TWO_8: int := 0x100
  const TWO_16: int := 0x1_0000
  const TWO_32: int := 0x1_0000_0000

  type byte = x: int | 0 <= x < 0x100
  type uint8 = x: int | 0 <= x < 0x100
  type int16 = x: int | -0x8000 <= x < 0x8000
  type uint16 = x: int | 0 <= x < 0x1_0000
  type uint32 = x: int | 0 <= x < 0x1_0000_0000

  /** Conversion to an unsigned type keeps the low bits. */
  function ToUint8(x: int): uint8 { x % TWO_8 }

  function ToUint16(x: int): uint16 { x % TWO_16 }

  function ToUint32(x: int): uint32 { x % TWO_32 }

  /** Conversion to a signed 16-bit integer (two's complement). */
  function ToInt16(x: int): int16
  {
    var low := x % TWO_16;
    if low < 0x8000 then low else low - TWO_16
  }

  function Min(a: int, b: int): int { if a <= b then a else b }

  function Max(a: int, b: int): int { if a <= b then b else a }
}
