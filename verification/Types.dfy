/** Machine integers, codes and small containers shared by every part of the model. */
module MtpTypes {
  type uint8 = x: int | 0 <= x < 0x100
  type uint16 = x: int | 0 <= x < 0x1_0000
  type uint32 = x: int | 0 <= x < 0x1_0000_0000
  type uint64 = x: int | 0 <= x < 0x1_0000_0000_0000_0000

  type int32 = x: int | -0x8000_0000 <= x < 0x8000_0000

  /** A conversion to a signed 32-bit integer: two's complement. */
  function ToInt32(n: int): int32 { Signed(n % 0x1_0000_0000) }

  function Signed(v: uint32): int32 { if v < 0x8000_0000 then v else v - 0x1_0000_0000 }

  /** Adding up in 32 bits, step by step, is adding up and converting once. */
  lemma ToInt32Adds(a: int, b: int)
    ensures ToInt32(ToInt32(a) + b) == ToInt32(a + b)
  {
    assert (ToInt32(a) + b - (a + b)) % 0x1_0000_0000 == 0;
  }

  /** A length keeps its value exactly when it is below 2^31. */
  lemma ToInt32Exactly(n: nat)
    ensures ToInt32(n) == n <==> n < 0x8000_0000
  {
  }

  datatype Option<+T> = None | Some(value: T)

  // Container layout
  const HEADER_SIZE: nat := 12
  const LENGTH_OFFSET: nat := 0
  const TYPE_OFFSET: nat := 4
  const CODE_OFFSET: nat := 6
  const TRANSACTION_OFFSET: nat := 8
  const PARAMETER_OFFSET: nat := 12
  const TYPE_COMMAND: uint16 := 1
  const TYPE_DATA: uint16 := 2
  const TYPE_RESPONSE: uint16 := 3

  // Buffer sizes
  const DATA_BUFFER_SIZE: nat := 16384
  const STRING_BUFFER_SIZE: nat := 766

  // Special object handles
  const PARENT_ROOT: uint32 := 0xFFFF_FFFF
  const INVALID_HANDLE: uint32 := 0xFFFF_FFFF

  function Min(a: int, b: int): int { if a <= b then a else b }

  function Max(a: int, b: int): int { if a <= b then b else a }
}
