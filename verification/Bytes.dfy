module Bytes {
  // A number below 256 survives the trip through a byte.
  lemma ByteRange(n: int)
    requires 0 <= n < 256
    ensures (n as bv8) as int == n
  {
  }
}
