/** 64-bit machine words, page-size arithmetic and the single-bit operations of the kernel. */
module Words {
  const TWO64: int := 0x1_0000_0000_0000_0000
  const PAGE_SIZE: int := 4096

  type u64 = x: int | 0 <= x < 0x1_0000_0000_0000_0000
  type byte = x: int | 0 <= x < 256

  datatype Option<+T> = None | Some(value: T)

  /** Unsigned 64-bit arithmetic wraps around. */
  function Wrap(x: int): u64 {
    x % TWO64
  }

  /** `align_up(value, PAGE_SIZE)`: rounds up to a page, wrapping to 0 in the last page of the address space. */
  function AlignUp(value: u64): (r: u64)
    ensures r % PAGE_SIZE == 0
    ensures value <= TWO64 - PAGE_SIZE ==> value <= r < value + PAGE_SIZE
    ensures value > TWO64 - PAGE_SIZE ==> r == 0
  {
    Wrap(value + PAGE_SIZE - 1) / PAGE_SIZE * PAGE_SIZE
  }

  /** `align_down(value, PAGE_SIZE)`, also written `value & ~(PAGE_SIZE - 1)`. */
  function AlignDown(value: u64): (r: u64)
    ensures r % PAGE_SIZE == 0 && r <= value < r + PAGE_SIZE
  {
    value / PAGE_SIZE * PAGE_SIZE
  }

  predicate PageAligned(value: u64) {
    value % PAGE_SIZE == 0
  }

  /** `flags | bit`, where `bit` is a power of two. */
  function SetBit(flags: nat, bit: nat): nat
    requires bit > 0
  {
    if (flags / bit) % 2 == 1 then flags else flags + bit
  }
}
