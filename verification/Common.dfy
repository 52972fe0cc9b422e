/** Types and constants that several modules share. */
module Common {
  datatype Option<T> = None | Some(value: T)

  type Byte = b: int | 0 <= b < 0x100

  type Int32 = n: int | -0x8000_0000 <= n < 0x8000_0000

  /** The largest finite number in single precision. */
  const LARGEST_FLOAT := 340282346638528859811704183484516925440.0

  /** 24 bits, moved to the left as far as the exponent of single precision allows. */
  lemma LargestFloat()
    ensures LARGEST_FLOAT == ((0x100_0000 - 1) * 0x100_0000_0000_0000_0000_0000_0000) as real
  {}

  /** The 32-bit integer in two's complement with the lowest bits of `v`. */
  function ToInt32(v: int): Int32 {
    var u := v % 0x1_0000_0000;
    if u < 0x8000_0000 then u else u - 0x1_0000_0000
  }

  function Zeros(n: nat): (z: seq<Byte>)
    ensures |z| == n
  {
    if n == 0 then [] else [0] + Zeros(n - 1)
  }
}
