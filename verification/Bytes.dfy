/** Bytes as the disk formats use them. */
module Bytes {
  type Byte = x: int | 0 <= x < 256

  type Raw = seq<Byte>

  function Zeros(n: nat): (z: Raw)
    ensures |z| == n && forall i :: 0 <= i < n ==> z[i] == 0
  {
    seq(n, _ => 0)
  }
}
