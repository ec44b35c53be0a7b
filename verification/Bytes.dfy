/** Bytes, and taking numbers apart that were put together from two parts. */
module Bytes {
  type Byte = b: int | 0 <= b < 256

  lemma SplitsBack(high: int, low: int, radix: int)
    requires 0 <= low < radix && (radix == 4 || radix == 16 || radix == 64)
    ensures (high * radix + low) / radix == high && (high * radix + low) % radix == low
  {
  }
}
