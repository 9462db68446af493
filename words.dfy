/** Fixed-width unsigned machine words, as value ranges over the unbounded integers. */
module Words {
  const TwoTo32: nat := 0x1_0000_0000
  const TwoTo64: nat := 0x1_0000_0000_0000_0000
  const TwoTo128: nat := 0x1_0000_0000_0000_0000_0000_0000_0000_0000

  /** `uint32_t`, `unsigned`. */
  type U32 = x: nat | x < 0x1_0000_0000

  /** `uint64_t`, `unsigned long long`, and `size_t` on the 64-bit targets the code is built for. */
  type U64 = x: nat | x < 0x1_0000_0000_0000_0000
}
