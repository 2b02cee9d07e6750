/** Vocabulary shared by every module: page geometry, optional values, results and panics. */
module Common {
  /** Size of a 4 KiB page and frame. */
  const PAGE_SIZE: nat := 4096
  /** `u64::MAX` and the modulus of 64-bit wrapping arithmetic. */
  const U64_MAX: nat := 0xFFFF_FFFF_FFFF_FFFF
  const U64_MODULUS: nat := 0x1_0000_0000_0000_0000

  datatype Option<T> = None | Some(value: T)

  datatype Result<T, E> = Ok(value: T) | Err(error: E)

  /** A call either returns a value or panics, after which the kernel does not continue. */
  datatype Outcome<T> = Return(value: T) | Panic(reason: string)

  function Max(a: nat, b: nat): (r: nat)
    ensures r >= a && r >= b && (r == a || r == b)
  {
    if a >= b then a else b
  }

  /** `addr & !(PAGE_SIZE - 1)`: the start of the page holding `a`. */
  function AlignDown(a: nat): (r: nat)
    ensures r % PAGE_SIZE == 0 && r <= a < r + PAGE_SIZE
  {
    a - a % PAGE_SIZE
  }

  /** `((a + PAGE_SIZE - 1) / PAGE_SIZE) * PAGE_SIZE`: the first page boundary at or above `a`. */
  function AlignUp(a: nat): (r: nat)
    ensures r % PAGE_SIZE == 0 && a <= r < a + PAGE_SIZE
  {
    (a + PAGE_SIZE - 1) / PAGE_SIZE * PAGE_SIZE
  }

  /** `(bytes + PAGE_SIZE - 1) / PAGE_SIZE`: the number of pages that hold `bytes` bytes. */
  function PagesFor(bytes: nat): (r: nat)
    ensures r * PAGE_SIZE >= bytes
    ensures r == 0 || (r - 1) * PAGE_SIZE < bytes
  {
    (bytes + PAGE_SIZE - 1) / PAGE_SIZE
  }

  lemma AlignDownShift(a: nat, k: nat)
    ensures AlignDown(a + k * PAGE_SIZE) == AlignDown(a) + k * PAGE_SIZE
  {
    assert a + k * PAGE_SIZE == AlignDown(a) + k * PAGE_SIZE + a % PAGE_SIZE;
  }

  lemma AlignDownOfAligned(a: nat)
    requires a % PAGE_SIZE == 0
    ensures AlignDown(a) == a
  {
  }
}
