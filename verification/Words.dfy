/** Machine words and pages. */
module Words {
  const U32_SIZE: nat := 0x1_0000_0000
  const U64_SIZE: nat := 0x1_0000_0000_0000_0000
  const PAGE_SIZE: nat := 4096

  type u64 = n: nat | n < 0x1_0000_0000_0000_0000

  function SaturatingAdd(a: u64, b: u64): u64 { if a + b < U64_SIZE then a + b else U64_SIZE - 1 }

  /** `a - b` in 64-bit arithmetic. */
  function WrappingSub(a: u64, b: u64): u64 { (a + U64_SIZE - b) % U64_SIZE }

  /** The start of the page that holds an address. */
  function PageDown(x: u64): u64 { x - x % PAGE_SIZE }
}
