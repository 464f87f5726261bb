/** The Stage-2 translation a Linux VM boots with (src/vm.rs, `init_memory_dynamic`). */
module VmMemory {
  import opened Descriptor
  import opened PageTable
  import opened TableEdits
  import opened Allocator
  import opened Sizes
  import opened Walker
  import opened Mapper

  // src/platform.rs
  const HEAP_START := 0x4100_0000
  const HEAP_SIZE := 0x100_0000
  const GIC_REGION_BASE := 0x0800_0000
  const GIC_REGION_SIZE := 8 * BLOCK_2MB

  // The same in 2MB blocks
  const HEAP_LO := 520
  const HEAP_HI := 528
  const GIC_LO := 64
  const GIC_HI := 72

  /** The blocks of a guest range `lo <= b < hi` that are not hypervisor heap. */
  ghost function GuestBlocks(lo: nat, hi: nat): set<U27> { BlockRange(lo, hi) - BlockRange(HEAP_LO, HEAP_HI) }

  ghost function GicBlocks(): set<U27> { BlockRange(GIC_LO, GIC_HI) }

  ghost function PageRange(lo: nat, hi: nat): set<PageNo> { set p: PageNo | Within(lo, hi, p) }

  /** The pages that trap: 16 pages of the distributor and 32 pages of each redistributor. */
  ghost function TrapPages(gicd: nat, gicrs: seq<nat>): set<PageNo>
  {
    PageRange(gicd / 4096, gicd / 4096 + 16) + RedistPages(gicrs)
  }

  ghost function RedistPages(gicrs: seq<nat>): set<PageNo>
  {
    if gicrs == [] then {} else RedistPages(gicrs[..|gicrs| - 1]) + PageRange(gicrs[|gicrs| - 1] / 4096, gicrs[|gicrs| - 1] / 4096 + 32)
  }

  /** The translation of a booted VM: identity, read-write and owned, on the guest range without
      the heap and on the interrupt controller, without the trapped pages; the interrupt controller
      is device memory. */
  ghost function BootView(lo: nat, hi: nat, trap: set<PageNo>): map<PageNo, Leaf>
  {
    map p: PageNo | (p / 512 in GuestBlocks(lo, hi) || p / 512 in GicBlocks()) && p !in trap ::
      BlockLeaf(p, if p / 512 in GicBlocks() then Device else Normal)
  }

  lemma BootLeaf(p: PageNo, attr: MemoryAttribute)
    requires !attr.ReadOnly?
    ensures BlockLeaf(p, attr).out == p && BlockLeaf(p, attr).s2ap == S2AP_RW && BlockLeaf(p, attr).sw == OWNED
  {
  }

  ghost function BlockRange(lo: nat, hi: nat): set<U27> { set b: U27 | Within(lo, hi, b) }

  /** The L1 indices of a set of blocks below 512GB. */
  ghost function L1Of(blocks: set<U27>): set<U9> { set b <- blocks :: L1Index(b) }

  lemma L1OfRange(lo: nat, hi: nat)
    requires hi <= BLOCKS_512GB
    ensures L1Of(BlockRange(lo, hi)) == L1Range(lo, hi) && LowBlocks(lo, hi) == BlockRange(lo, hi)
  {
    hide L1Index;
    forall b: U27 | b in BlockRange(lo, hi) ensures LowBlock(b) == b {}
    forall b: nat | lo <= b < hi ensures b < 0x800_0000 && LowBlock(b) == b && b in BlockRange(lo, hi) {}
    forall j <- L1Range(lo, hi) ensures j in L1Of(BlockRange(lo, hi)) {
      var b: nat :| lo <= b < hi && L1Index(b) == j;
      assert b in BlockRange(lo, hi);
    }
    forall c <- BlockRange(lo, hi) ensures c in LowBlocks(lo, hi) && L1Index(c) in L1Range(lo, hi) { assert LowBlock(c) == c; }
  }

  lemma L1OfUnion(a: set<U27>, b: set<U27>)
    ensures L1Of(a + b) == L1Of(a) + L1Of(b)
  {
  }

  /** A mapper whose translation is exactly some blocks of normal memory; `budget` pages of heap in all. */
  ghost predicate Holds(m: DynamicIdentityMapper, blocks: set<U27>, budget: int)
    reads m, m.tables, m.tables.heap
  {
    && m.Valid() && m.used == L1Of(blocks)
    && Blocks(m.tables.heap.mem, m.l0) == blocks && m.Translation() == Mapped(blocks, Normal)
    && m.tables.heap.Available() + |L1Of(blocks)| == budget
  }

  /** Other roots keep their translations. */
  twostate predicate OthersKept(m: DynamicIdentityMapper)
    reads m, m.tables, m.tables.heap
  {
    && Extends(old(m.tables.nodes), m.tables.nodes)
    && forall l | old(m.tables.Root(l)) && l != m.l0 :: m.tables.Translation(l) == old(m.tables.Translation(l))
  }

  /** Maps one stretch of a guest range. */
  method MapNormal(m: DynamicIdentityMapper, ipa: nat, size: nat, ghost blocks: set<U27>, ghost all: set<U27>, ghost budget: int)
    returns (r: Outcome)
    requires Holds(m, blocks, budget) && |L1Of(all)| <= 4 && |L1Of(all)| <= budget
    requires ipa % BLOCK_2MB == 0 && size % BLOCK_2MB == 0 && ipa + size <= PAGES_512GB * 4096
    requires blocks + BlockRange(ipa / BLOCK_2MB, (ipa + size) / BLOCK_2MB) <= all
    modifies m, m.tables, m.tables.heap
    ensures r.Ok? && Holds(m, blocks + BlockRange(ipa / BLOCK_2MB, (ipa + size) / BLOCK_2MB), budget) && OthersKept(m)
  {
    hide View, Shape, Blocks, BumpAllocator.Valid, Tables.Valid, DynamicIdentityMapper.Valid, L1Range, L1Of, Overlay, Mapped, BlockRange, LowBlocks;
    ghost var lo, hi := ipa / BLOCK_2MB, (ipa + size) / BLOCK_2MB;
    ghost var need := L1Range(lo, hi);
    assert EndBlock(ipa, size) == hi;
    MappedOverlay(blocks, lo, hi);
    L1OfMonotone(blocks + BlockRange(lo, hi), all);
    assert |L1Of(blocks) + need| == |L1Of(blocks)| + |need - L1Of(blocks)| by {
      assert L1Of(blocks) + need == L1Of(blocks) + (need - L1Of(blocks));
    }
    r := m.MapRegion(ipa, size, Normal);
  }

  lemma L1OfMonotone(a: set<U27>, b: set<U27>)
    requires a <= b
    ensures |L1Of(a)| <= |L1Of(b)|
  {
    SubsetSize(L1Of(a), L1Of(b));
  }

  /** Maps the guest range around the heap. */
  method MapGuest(m: DynamicIdentityMapper, start: nat, size: nat, ghost budget: int) returns (r: Outcome)
    requires Holds(m, {}, budget)
    requires start % BLOCK_2MB == 0 && size % BLOCK_2MB == 0 && start + size <= PAGES_512GB * 4096
    requires |L1Of(GuestBlocks(start / BLOCK_2MB, (start + size) / BLOCK_2MB))| <= 4
    requires |L1Of(GuestBlocks(start / BLOCK_2MB, (start + size) / BLOCK_2MB))| <= budget
    modifies m, m.tables, m.tables.heap
    ensures r.Ok? && Holds(m, GuestBlocks(start / BLOCK_2MB, (start + size) / BLOCK_2MB), budget) && OthersKept(m)
  {
    hide View, Shape, Blocks, Holds, L1Of, Mapped;
    var heapEnd := HEAP_START + HEAP_SIZE;
    var end := start + size;
    var overlapStart := if HEAP_START > start then HEAP_START else start;
    var overlapEnd := if heapEnd < end then heapEnd else end;
    ghost var all := GuestBlocks(start / BLOCK_2MB, end / BLOCK_2MB);
    ghost var done := {};
    if overlapStart < overlapEnd {
      if start < overlapStart {
        r := MapNormal(m, start, overlapStart - start, done, all, budget);
        done := done + BlockRange(start / BLOCK_2MB, overlapStart / BLOCK_2MB);
        if r.Err? { return; }
      }
      if overlapEnd < end {
        r := MapNormal(m, overlapEnd, end - overlapEnd, done, all, budget);
        done := done + BlockRange(overlapEnd / BLOCK_2MB, end / BLOCK_2MB);
        if r.Err? { return; }
      }
    } else {
      r := MapNormal(m, start, size, done, all, budget);
      done := done + BlockRange(start / BLOCK_2MB, end / BLOCK_2MB);
      if r.Err? { return; }
    }
    assert done == all;
    r := Ok;
  }

  /** The blocks mapped to themselves. */
  ghost function Mapped(blocks: set<U27>, attr: MemoryAttribute): map<PageNo, Leaf>
  {
    map p: PageNo | p / 512 in blocks :: BlockLeaf(p, attr)
  }

  lemma MappedOverlay(blocks: set<U27>, lo: nat, hi: nat)
    requires hi <= BLOCKS_512GB
    ensures Overlay(Mapped(blocks, Normal), lo, hi, Normal) == Mapped(blocks + BlockRange(lo, hi), Normal)
    ensures LowBlocks(lo, hi) == BlockRange(lo, hi)
    ensures L1Of(blocks + BlockRange(lo, hi)) == L1Of(blocks) + L1Range(lo, hi)
  {
    hide BlockLeaf, LeafOf, BlockEntry, Covered, LastIn512GB, L1Of, LowBlocks, L1Range;
    L1OfRange(lo, hi);
    L1OfUnion(blocks, BlockRange(lo, hi));
    forall p: PageNo
      ensures Covered(lo, hi, BlockOf(p)) <==> p / 512 in BlockRange(lo, hi)
      ensures Covered(lo, hi, BlockOf(p)) ==> LeafOf(BlockEntry(LastIn512GB(hi, BlockOf(p)), Normal), 2, p) == BlockLeaf(p, Normal)
    {
      OverlayBelow(lo, hi, Normal, p);
    }
  }

  /** The heap left when the blocks of `trap` that are not split yet have been split. */
  ghost function Spare(m: DynamicIdentityMapper, trap: set<U27>): int
    reads m, m.tables, m.tables.heap
  {
    m.tables.heap.Available() - |Blocks(m.tables.heap.mem, m.l0) * trap|
  }

  /** The descriptors of the interrupt controller's blocks are valid. */
  ghost predicate GicMapped(mem: Mem, l0: PageNo)
  {
    forall p: PageNo :: Within(GIC_LO, GIC_HI, p / 512) ==> L2Entry(mem, l0, p).valid
  }

  lemma GicStaysMapped(mem: Mem, mem': Mem, l0: PageNo)
    requires GicMapped(mem, l0) && KeepsL2(mem, mem', l0)
    ensures GicMapped(mem', l0)
  {
    hide L2Entry;
  }

  /** Unmaps one page of the interrupt controller. */
  method UnmapTrap(m: DynamicIdentityMapper, addr: nat, ghost trap: set<U27>) returns (r: Outcome)
    requires m.Valid() && GicMapped(m.tables.heap.mem, m.l0) && Spare(m, trap) >= 0
    requires addr < PAGES_512GB * 4096 && Within(GIC_LO, GIC_HI, PageOf(addr) / 512) && PageOf(addr) / 512 in trap
    modifies m.tables, m.tables.heap
    ensures m.Valid() && r.Ok? && GicMapped(m.tables.heap.mem, m.l0) && Spare(m, trap) == old(Spare(m, trap)) && OthersKept(m)
    ensures m.Translation() == old(m.Translation()) - {PageOf(addr)}
  {
    hide View, Shape, Blocks, BumpAllocator.Valid, Tables.Valid, DynamicIdentityMapper.Valid, KeepsL2, L2Entry, LowPage;
    ghost var mem := m.tables.heap.mem;
    LowPageIs(addr);
    OneSplit(Blocks(mem, m.l0), trap, PageOf(addr) / 512);
    r := m.Unmap4kbPage(addr);
    GicStaysMapped(mem, m.tables.heap.mem, m.l0);
  }

  /** Unmaps `n` consecutive pages of the interrupt controller. */
  method UnmapRun(m: DynamicIdentityMapper, base: nat, n: nat, ghost trap: set<U27>) returns (r: Outcome)
    requires m.Valid() && GicMapped(m.tables.heap.mem, m.l0) && Spare(m, trap) >= 0
    requires FitsGic(base, n)
    requires forall p <- PageRange(base / 4096, base / 4096 + n) :: p / 512 in trap
    modifies m.tables, m.tables.heap
    ensures m.Valid() && r.Ok? && GicMapped(m.tables.heap.mem, m.l0) && Spare(m, trap) == old(Spare(m, trap)) && OthersKept(m)
    ensures m.Translation() == old(m.Translation()) - PageRange(base / 4096, base / 4096 + n)
  {
    hide View, Shape, Blocks, BumpAllocator.Valid, Tables.Valid, DynamicIdentityMapper.Valid, GicMapped, Spare;
    ghost var first := base / 4096;
    for k := 0 to n
      invariant m.Valid() && GicMapped(m.tables.heap.mem, m.l0) && Spare(m, trap) == old(Spare(m, trap)) && OthersKept(m)
      invariant m.Translation() == old(m.Translation()) - PageRange(first, first + k)
    {
      var addr := base + k * 4096;
      ghost var p := PageOf(addr);
      assert p == first + k && p in PageRange(first, first + n);
      r := UnmapTrap(m, addr, trap);
      if r.Err? { return; }
      assert PageRange(first, first + k + 1) == PageRange(first, first + k) + {p};
    }
    r := Ok;
  }

  lemma SpareIsThere(m: DynamicIdentityMapper, trap: set<U27>)
    ensures m.tables.heap.Available() >= Spare(m, trap)
  {
  }

  lemma OneSplit(blocks: set<U27>, trap: set<U27>, b: U27)
    requires b in trap
    ensures b in blocks ==> |blocks * trap| > 0 && |(blocks - {b}) * trap| == |blocks * trap| - 1
    ensures b !in blocks ==> blocks - {b} == blocks
  {
    if b in blocks {
      assert b in blocks * trap;
      assert (blocks - {b}) * trap == blocks * trap - {b};
    }
  }

  /** Maps the interrupt controller. */
  method MapGic(m: DynamicIdentityMapper, ghost guest: set<U27>, ghost budget: int, ghost trap: set<U27>) returns (r: Outcome)
    requires Holds(m, guest, budget)
    requires |L1Of(guest + GicBlocks())| <= 4 && |L1Of(guest + GicBlocks())| + |trap| <= budget
    modifies m, m.tables, m.tables.heap
    ensures m.Valid() && r.Ok? && OthersKept(m)
    ensures m.Translation() == Overlay(Mapped(guest, Normal), GIC_LO, GIC_HI, Device)
    ensures GicMapped(m.tables.heap.mem, m.l0) && Spare(m, trap) >= budget - |L1Of(guest + GicBlocks())| - |trap|
  {
    hide View, Shape, Blocks, BumpAllocator.Valid, Tables.Valid, DynamicIdentityMapper.Valid, L1Range, L1Of, Overlay, Mapped, GicMapped, BlockRange, LowBlocks;
    L1OfRange(GIC_LO, GIC_HI);
    L1OfUnion(guest, GicBlocks());
    ghost var need := L1Range(GIC_LO, GIC_HI);
    assert |L1Of(guest) + need| == |L1Of(guest)| + |need - L1Of(guest)| by {
      assert L1Of(guest) + need == L1Of(guest) + (need - L1Of(guest));
    }
    r := m.MapRegion(GIC_REGION_BASE, GIC_REGION_SIZE, Device);
    GicBlocksMapped(m.tables.heap.mem, m.l0);
    SubsetSize(Blocks(m.tables.heap.mem, m.l0) * trap, trap);
  }

  lemma GicBlocksMapped(mem: Mem, l0: PageNo)
    requires GicBlocks() <= Blocks(mem, l0)
    ensures GicMapped(mem, l0)
  {
    forall p: PageNo | Within(GIC_LO, GIC_HI, p / 512) ensures L2Entry(mem, l0, p).valid {
      assert p / 512 in GicBlocks();
      L2EntryOfBlock(mem, l0, p);
    }
  }

  predicate FitsGic(base: nat, n: nat) { GIC_LO * 512 <= base / 4096 && base / 4096 + n <= GIC_HI * 512 }

  /** The room that a VM needs: at most four L2 tables, and heap for them and for the splits. */
  ghost predicate Room(lo: nat, hi: nat, trap: set<PageNo>, budget: int)
  {
    |L1Of(GuestBlocks(lo, hi) + GicBlocks())| <= 4 && Cost(lo, hi, trap) <= budget
  }

  ghost function Cost(lo: nat, hi: nat, trap: set<PageNo>): nat { |L1Of(GuestBlocks(lo, hi) + GicBlocks())| + |BlocksOf(trap)| }

  /** Maps and unmaps what a VM boots with. */
  method Populate(m: DynamicIdentityMapper, start: nat, size: nat, gicd: nat, gicrs: seq<nat>, ghost budget: int) returns (r: Outcome)
    requires Holds(m, {}, budget)
    requires start % BLOCK_2MB == 0 && size % BLOCK_2MB == 0 && start + size <= PAGES_512GB * 4096
    requires FitsGic(gicd, 16) && forall g <- gicrs :: FitsGic(g, 32)
    requires Room(start / BLOCK_2MB, (start + size) / BLOCK_2MB, TrapPages(gicd, gicrs), budget)
    modifies m, m.tables, m.tables.heap
    ensures r.Ok? && m.Valid() && OthersKept(m)
    ensures m.tables.heap.Available() >= budget - Cost(start / BLOCK_2MB, (start + size) / BLOCK_2MB, TrapPages(gicd, gicrs))
    ensures m.Translation() == BootView(start / BLOCK_2MB, (start + size) / BLOCK_2MB, TrapPages(gicd, gicrs))
  {
    hide View, Shape, Blocks, BumpAllocator.Valid, Tables.Valid, DynamicIdentityMapper.Valid;
    hide GicMapped, Spare, L1Of, Mapped, Overlay, BootView, GuestBlocks, Holds, BlocksOf;
    ghost var lo, hi, trap := start / BLOCK_2MB, (start + size) / BLOCK_2MB, TrapPages(gicd, gicrs);
    ghost var guest := GuestBlocks(lo, hi);
    L1OfMonotone(guest, guest + GicBlocks());
    r := MapGuest(m, start, size, budget);
    if r.Err? { return; }
    r := MapGic(m, guest, budget, BlocksOf(trap));
    if r.Err? { return; }
    TrapInGic(gicd, gicrs);
    r := UnmapRun(m, gicd, 16, BlocksOf(trap));
    if r.Err? { return; }
    r := UnmapRedistributors(m, gicrs, BlocksOf(trap));
    if r.Err? { return; }
    SpareIsThere(m, BlocksOf(trap));
    BootViewIs(lo, hi, trap);
    r := Ok;
  }

  /** `init_memory_dynamic`: no step panics and the VM boots with exactly `BootView`. */
  method InitMemoryDynamic(tables: Tables, start: nat, size: nat, gicd: nat, gicrs: seq<nat>)
    returns (m: DynamicIdentityMapper, r: Outcome)
    requires tables.Valid()
    requires start % BLOCK_2MB == 0 && size % BLOCK_2MB == 0 && start + size <= PAGES_512GB * 4096
    requires FitsGic(gicd, 16) && forall g <- gicrs :: FitsGic(g, 32)
    requires tables.heap.Available() >= 2
    requires Room(start / BLOCK_2MB, (start + size) / BLOCK_2MB, TrapPages(gicd, gicrs), tables.heap.Available() - 2)
    modifies tables, tables.heap
    ensures r.Ok? && fresh(m) && m.tables == tables && m.Valid()
    ensures m.Translation() == BootView(start / BLOCK_2MB, (start + size) / BLOCK_2MB, TrapPages(gicd, gicrs))
    ensures Extends(old(tables.nodes), tables.nodes) && m.l0 !in old(tables.nodes)
    ensures forall l | old(tables.Root(l)) :: tables.Translation(l) == old(tables.Translation(l))
    ensures tables.heap.Available() >= old(tables.heap.Available()) - 2 - Cost(start / BLOCK_2MB, (start + size) / BLOCK_2MB, TrapPages(gicd, gicrs))
  {
    hide View, Shape, Blocks, BumpAllocator.Valid, Tables.Valid, DynamicIdentityMapper.Valid, BootView, Room, Holds, Mapped, TrapPages, Cost;
    ghost var budget := tables.heap.Available() - 2;
    m := new DynamicIdentityMapper(tables);
    StartsEmpty(m, budget);
    r := Populate(m, start, size, gicd, gicrs, budget);
  }

  /** Unmaps every redistributor. */
  method UnmapRedistributors(m: DynamicIdentityMapper, gicrs: seq<nat>, ghost trap: set<U27>) returns (r: Outcome)
    requires m.Valid() && GicMapped(m.tables.heap.mem, m.l0) && Spare(m, trap) >= 0
    requires forall g <- gicrs :: FitsGic(g, 32)
    requires forall p <- RedistPages(gicrs) :: p / 512 in trap
    modifies m.tables, m.tables.heap
    ensures m.Valid() && r.Ok? && Spare(m, trap) == old(Spare(m, trap)) && OthersKept(m)
    ensures m.Translation() == old(m.Translation()) - RedistPages(gicrs)
  {
    hide View, Shape, Blocks, BumpAllocator.Valid, Tables.Valid, DynamicIdentityMapper.Valid, GicMapped, Spare;
    for cpu := 0 to |gicrs|
      invariant m.Valid() && GicMapped(m.tables.heap.mem, m.l0) && Spare(m, trap) == old(Spare(m, trap)) && OthersKept(m)
      invariant m.Translation() == old(m.Translation()) - RedistPages(gicrs[..cpu])
    {
      RedistStep(gicrs, cpu);
      assert gicrs[cpu] in gicrs;
      r := UnmapRun(m, gicrs[cpu], 32, trap);
      if r.Err? { return; }
    }
    assert gicrs[..|gicrs|] == gicrs;
    r := Ok;
  }

  lemma {:induction false} RedistInGic(gicrs: seq<nat>)
    requires forall g <- gicrs :: FitsGic(g, 32)
    ensures forall p <- RedistPages(gicrs) :: p / 512 in GicBlocks()
  {
    if gicrs != [] {
      assert gicrs[|gicrs| - 1] in gicrs;
      RedistInGic(gicrs[..|gicrs| - 1]);
    }
  }

  lemma TrapInGic(gicd: nat, gicrs: seq<nat>)
    requires FitsGic(gicd, 16) && forall g <- gicrs :: FitsGic(g, 32)
    ensures forall p <- TrapPages(gicd, gicrs) :: p / 512 in GicBlocks() && p / 512 in BlocksOf(TrapPages(gicd, gicrs))
  {
    RedistInGic(gicrs);
    forall p <- TrapPages(gicd, gicrs) ensures p / 512 in BlocksOf(TrapPages(gicd, gicrs)) {
      assert BlockOf(p) == p / 512;
    }
  }

  lemma StartsEmpty(m: DynamicIdentityMapper, budget: int)
    requires m.Valid() && m.used == {} && m.Translation() == map[] && Blocks(m.tables.heap.mem, m.l0) == {}
    requires m.tables.heap.Available() == budget
    ensures Holds(m, {}, budget)
  {
  }

  lemma {:induction false} RedistMonotone(gicrs: seq<nat>, n: nat)
    requires n <= |gicrs|
    ensures RedistPages(gicrs[..n]) <= RedistPages(gicrs)
  {
    if n < |gicrs| {
      assert gicrs[..|gicrs| - 1][..n] == gicrs[..n];
      RedistMonotone(gicrs[..|gicrs| - 1], n);
    } else {
      assert gicrs[..n] == gicrs;
    }
  }

  lemma RedistStep(gicrs: seq<nat>, cpu: nat)
    requires cpu < |gicrs|
    ensures var g := gicrs[cpu] / 4096;
            && RedistPages(gicrs[..cpu + 1]) == RedistPages(gicrs[..cpu]) + PageRange(g, g + 32)
            && PageRange(g, g + 32) <= RedistPages(gicrs)
  {
    assert gicrs[..cpu + 1][..cpu] == gicrs[..cpu];
    RedistMonotone(gicrs, cpu + 1);
  }

  lemma BootViewIs(lo: nat, hi: nat, trap: set<PageNo>)
    ensures Overlay(Mapped(GuestBlocks(lo, hi), Normal), GIC_LO, GIC_HI, Device) - trap == BootView(lo, hi, trap)
  {
    hide BlockLeaf, LeafOf, BlockEntry, Covered, LastIn512GB, GuestBlocks;
    forall p: PageNo
      ensures Covered(GIC_LO, GIC_HI, BlockOf(p)) <==> p / 512 in GicBlocks()
      ensures Covered(GIC_LO, GIC_HI, BlockOf(p)) ==> LeafOf(BlockEntry(LastIn512GB(GIC_HI, BlockOf(p)), Device), 2, p) == BlockLeaf(p, Device)
    {
      OverlayBelow(GIC_LO, GIC_HI, Device, p);
    }
  }
}
