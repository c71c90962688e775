/** Identifiers and 32-bit integers shared by the three projects. */
module Numerics {

  /**
   * A `System.Guid`, as the number the 32 hex digits of its `ToString()` spell, in order;
   * `Guid.Empty` is zero. SQLite stores that text in upper case, so text order is numeric order.
   */
  type Guid = x: nat | x < 0x1_0000_0000_0000_0000_0000_0000_0000_0000

  const EmptyGuid: Guid := 0

  /** C# `int`. */
  newtype int32 = x: int | -0x8000_0000 <= x < 0x8000_0000

  /** An unchecked C# `int` operation's result: the exact value reduced modulo 2^32 into range. */
  function Wrap32(x: int): (r: int32)
    ensures (r as int - x) % 0x1_0000_0000 == 0
    ensures -0x8000_0000 <= x < 0x8000_0000 ==> r as int == x
  {
    var m := x % 0x1_0000_0000;
    if m < 0x8000_0000 then m as int32 else (m - 0x1_0000_0000) as int32
  }
}
