/** Bytes as numbers. */
module Bytes {

  function Power256(n: nat): (r: nat)
    ensures r > 0
  {
    if n == 0 then 1 else 256 * Power256(n - 1)
  }

  /** Little-endian bytes as a number. */
  function LittleEndian(b: seq<int>): int {
    if |b| == 0 then 0 else b[0] + 256 * LittleEndian(b[1..])
  }
}
