/** Machine words: bytes, unsigned 64-bit numbers, and two's-complement reading of their low bits. */
module Words {
  const TWO_32: int := 0x1_0000_0000
  const TWO_63: int := 0x8000_0000_0000_0000
  const TWO_64: int := 0x1_0000_0000_0000_0000

  type byte = x: int | 0 <= x < 256
  type uint64 = x: int | 0 <= x < TWO_64
  type bytes = seq<byte>

  datatype Option<+T> = None | Some(value: T) {
    function GetOr(default: T): T {
      if Some? then value else default
    }
  }

  /** Conversion of a signed number to `uint64`: sign extension, then wrap-around. */
  function Unsigned64(x: int): uint64 {
    x % TWO_64
  }

  /** The low bits below `modulus`, read as a two's-complement number. */
  function Signed(u: nat, modulus: int): (x: int)
    requires modulus > 0 && modulus % 2 == 0
    ensures -(modulus / 2) <= x < modulus / 2
  {
    var low := u % modulus;
    if low < modulus / 2 then low else low - modulus
  }
}
