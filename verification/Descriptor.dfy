/** Stage-2 descriptors (src/arch/aarch64/defs.rs, src/arch/aarch64/mm/mmu.rs).

A descriptor is a 64-bit word.  The page-table modules work on its bit fields; module
`PteBits` shows that every mask-and-shift expression of the hypervisor acts on the word
exactly as the corresponding function of this module acts on the fields. */
module Descriptor {
  import BitWord

  datatype Option<+T> = None | Some(value: T)

  /** Outcome of an operation that the hypervisor reports as `Result<(), &str>`. */
  datatype Outcome = Ok | Err

  type U2 = n: int | 0 <= n < 4
  type U4 = n: int | 0 <= n < 16
  type U7 = n: int | 0 <= n < 128
  type U9 = n: int | 0 <= n < 512
  type U18 = n: int | 0 <= n < 0x4_0000
  type U27 = n: int | 0 <= n < 0x800_0000

  /** A 4KB page number: bits 47:12 of an address. */
  const PAGES := 0x10_0000_0000
  type PageNo = n: int | 0 <= n < PAGES

  /** The bit fields of a descriptor, lowest bit first:
      valid 0, table 1, memAttr 5:2, s2ap 7:6, shAf 11:8, low 20:12, frame 47:21,
      up 54:48, sw 56:55, top 63:57. */
  datatype Pte = Pte(valid: bool, table: bool, memAttr: U4, s2ap: U2, shAf: U4,
                     low: U9, frame: U27, up: U7, sw: U2, top: U7)
  {
    predicate IsTable() { valid && table }

    /** `entry & PTE_ADDR_MASK`, as a page number. */
    function Page(): PageNo { frame * 512 + low }
  }

  const ZERO := Pte(false, false, 0, 0, 0, 0, 0, 0, 0, 0)

  // S2AP and ownership codes
  const S2AP_NONE: U2 := 0
  const S2AP_RO: U2 := 1
  const S2AP_RW: U2 := 3
  const OWNED: U2 := 0
  const SHARED_OWNED: U2 := 1
  const SHARED_BORROWED: U2 := 2

  // Bits 11:8 of a descriptor: SH = inner (normal) or none (device), AF = 1
  const NORMAL_ATTR: U4 := 15
  const NORMAL_SHAF: U4 := 7
  const DEVICE_ATTR: U4 := 0
  const DEVICE_SHAF: U4 := 4

  datatype MemoryAttribute = Normal | Device | ReadOnly

  /** Bitwise or of two 9-bit numbers. */
  function Or9(a: U9, b: U9): U9
  {
    assert BitWord.Pow2(9) == 512;
    BitWord.Val(BitWord.Or(BitWord.ToBits(a, 9), BitWord.ToBits(b, 9)))
  }

  lemma Or9Zero(a: U9)
    ensures Or9(a, 0) == a && Or9(0, a) == a
  {
    hide BitWord.ToBits, BitWord.Val, BitWord.Or;
    assert BitWord.Pow2(9) == 512;
    BitWord.OrWithZero(a, 9);
  }

  predicate IsPow2(n: nat) { n == 1 || (n > 1 && n % 2 == 0 && IsPow2(n / 2)) }

  function TableDesc(page: PageNo): Pte
  {
    Pte(true, true, 0, 0, 0, page % 512, page / 512, 0, 0, 0)
  }

  /** The word holding a page address, as written into a free page. */
  function AddrWord(page: PageNo): Pte
  {
    TableDesc(page).(valid := false, table := false)
  }

  function WithSw(e: Pte, bits: nat): Pte { e.(sw := bits % 4) }

  function WithS2ap(e: Pte, bits: nat): Pte { e.(s2ap := bits % 4) }

  function Or2(a: U2, b: U2): U2
  {
    assert BitWord.Pow2(2) == 4;
    BitWord.Val(BitWord.Or(BitWord.ToBits(a, 2), BitWord.ToBits(b, 2)))
  }

  lemma Or2Zero(a: U2)
    ensures Or2(a, 0) == a && Or2(0, a) == a
  {
    hide BitWord.ToBits, BitWord.Val, BitWord.Or;
    assert BitWord.Pow2(2) == 4;
    BitWord.OrWithZero(a, 2);
  }

  /** `Stage2Walker::map_page`'s identity page descriptor.  `high` are the address bits 63:48, which
      the code does not mask. */
  function PageDesc(page: PageNo, high: nat, s2ap: nat, sw: nat): Pte
  {
    Pte(true, true, NORMAL_ATTR, s2ap % 4, NORMAL_SHAF, page % 512, page / 512, high % 128, Or2(sw % 4, high / 128 % 4), high / 512 % 128)
  }

  /** `DynamicIdentityMapper::make_block_entry`: a 2MB block holding `page`; likewise with the address
      bits 63:48. */
  function BlockDesc(page: PageNo, high: nat, attr: MemoryAttribute): Pte
  {
    Pte(true, false,
        if attr.Device? then DEVICE_ATTR else NORMAL_ATTR,
        if attr.ReadOnly? then S2AP_RO else S2AP_RW,
        if attr.Device? then DEVICE_SHAF else NORMAL_SHAF,
        0, page / 512, high % 128, high / 128 % 4, high / 512 % 128)
  }

  /** The i-th page descriptor written when a 2MB block is split. */
  function SplitDesc(block: Pte, i: U9): Pte
  {
    block.(valid := true, table := true, low := Or9(i, block.low))
  }
}
