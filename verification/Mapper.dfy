/** `DynamicIdentityMapper` (src/arch/aarch64/mm/mmu.rs): builds a VM's Stage-2 tables. */
module Mapper {
  import opened Descriptor
  import opened PageTable
  import opened TableEdits
  import opened Allocator
  import opened Sizes
  import opened Walker

  const PAGES_512GB := 0x800_0000
  const BLOCK_2MB := 0x20_0000

  /** The page of an address below 512GB; the mapper's one L1 table repeats above. */
  function LowPage(ipa: nat): PageNo { ipa / 4096 % PAGES_512GB }

  lemma LowPageIs(ipa: nat)
    requires ipa < PAGES_512GB * 4096
    ensures LowPage(ipa) == PageOf(ipa)
  {
  }

  class DynamicIdentityMapper {
    const tables: Tables
    const l0: PageNo
    const l1: PageNo
    var l2Tables: seq<PageNo>
    var l2Count: nat
    /** The L1 indices that have an L2 table. */
    ghost var used: set<U9>

    ghost predicate Valid()
      reads this, tables, tables.heap
    {
      && tables.Valid() && tables.Root(l0)
      && l1 in tables.nodes && tables.nodes[l1] == Node(l0, 1, 0)
      && At(tables.heap.mem, l0, 0) == TableDesc(l1)
      && UsedAre(tables.heap.mem, l1, used)
      && |l2Tables| == 4 && l2Count == |used| <= 4
    }

    lemma UsedBound()
      requires Valid()
      ensures |used| <= 4
    {
    }

    ghost function Translation(): map<PageNo, Leaf>
      reads tables.heap
    {
      tables.Translation(l0)
    }

    ghost function Summary(): Mapping
      reads this, tables, tables.heap
    {
      Mapping(Translation(), used, tables.heap.Available(), Blocks(tables.heap.mem, l0))
    }

    /** `new`: an empty translation. */
    constructor (tables: Tables)
      requires tables.Valid() && tables.heap.Available() >= 2
      modifies tables, tables.heap
      ensures Valid() && this.tables == tables && used == {}
      ensures Translation() == map[] && Blocks(tables.heap.mem, l0) == {}
      ensures Extends(old(tables.nodes), tables.nodes) && l0 !in old(tables.nodes)
      ensures forall l | old(tables.Root(l)) :: tables.Translation(l) == old(tables.Translation(l))
      ensures tables.heap.Available() == old(tables.heap.Available()) - 2
    {
      var a, b := MakeRoot(tables);
      this.tables, this.l0, this.l1 := tables, a, b;
      this.l2Tables, this.l2Count, this.used := [0, 0, 0, 0], 0, {};
    }

    /** `get_or_create_l2`. */
    method GetOrCreateL2(i: U9) returns (r: Option<PageNo>)
      requires Valid()
      modifies this, tables, tables.heap
      ensures Valid() && Kept(old(tables.nodes), old(tables.heap.mem), tables.nodes, tables.heap.mem)
      ensures r.Some? <==> i in old(used) || (|old(used)| < 4 && old(tables.heap.Available()) > 0)
      ensures used == if r.Some? then old(used) + {i} else old(used)
      ensures tables.heap.Available() == old(tables.heap.Available()) - (if r.Some? && i !in old(used) then 1 else 0)
      ensures r.Some? ==> At(tables.heap.mem, l1, i).IsTable() && At(tables.heap.mem, l1, i).Page() == r.value
    {
      hide View, Blocks, Shape, BumpAllocator.Valid;
      ghost var mem0 := tables.heap.mem;
      L1HasNoBlocks(mem0, tables.nodes, l1, i);
      var e := At(tables.heap.mem, l1, i);
      if e.IsTable() { return Some(e.Page()); }
      if l2Count >= 4 { return None; }
      r := tables.LinkNewTable(l1, i);
      if r.None? {
        return;
      }
      l2Tables := l2Tables[l2Count := r.value];
      l2Count := l2Count + 1;
      used := used + {i};
    }

    /** `map_region`: writes the descriptors of the 2MB blocks that meet the region, each in the slot of
        its block modulo 512GB. */
    method MapRegion(ipa: nat, size: nat, attr: MemoryAttribute) returns (r: Outcome)
      requires Valid()
      modifies this, tables, tables.heap
      ensures Valid() && Extends(old(tables.nodes), tables.nodes)
      ensures forall l | old(tables.Root(l)) && l != l0 :: tables.Translation(l) == old(tables.Translation(l))
      ensures r.Ok? <==> Affords(old(Summary()), L1Range(ipa / BLOCK_2MB, EndBlock(ipa, size)))
      ensures r.Ok? ==> MappedTo(old(Summary()), Summary(), ipa / BLOCK_2MB, EndBlock(ipa, size), attr)
      ensures r.Err? ==> exists cut :: ipa / BLOCK_2MB <= cut < EndBlock(ipa, size) && Translation() == Overlay(old(Translation()), ipa / BLOCK_2MB, cut, attr)
    {
      hide View, Blocks, Shape, BumpAllocator.Valid, Tables.Valid, Overlay, L1Range, LowBlocks, Valid, EndBlock, StandsAt, MappedTo, Affords;
      ghost var lo, hi, b, m0 := ipa / BLOCK_2MB, EndBlock(ipa, size), ipa / BLOCK_2MB, Summary();
      var offset: nat := 0;
      StandsStart(ipa, size);
      NothingYet(m0, lo, attr);
      while offset < size
        invariant StandsAt(ipa, size, offset, b) && lo <= b <= hi
        invariant Valid() && Extends(old(tables.nodes), tables.nodes)
        invariant forall l | old(tables.Root(l)) && l != l0 :: tables.Translation(l) == old(tables.Translation(l))
        invariant MappedTo(m0, Summary(), lo, b, attr)
        decreases hi - b
      {
        var current := ipa + offset;
        StandsStep(ipa, size, offset, b);
        ghost var m := Summary();
        var ok := MapBlock(current, attr);
        if ok.Err? {
          MappedFail(m0, m, lo, b, hi, attr);
          return Err;
        }
        MappedStep(m0, m, lo, b, hi, attr);
        offset := offset + BLOCK_2MB;
        b := b + 1;
      }
      StandsEnd(ipa, size, offset, b);
      UsedBound();
      MappedEnd(m0, Summary(), lo, hi, attr);
      r := Ok;
    }

    /** One iteration of `map_region`. */
    method MapBlock(ipa: nat, attr: MemoryAttribute) returns (r: Outcome)
      requires Valid()
      modifies this, tables, tables.heap
      ensures Valid() && Extends(old(tables.nodes), tables.nodes)
      ensures forall l | old(tables.Root(l)) && l != l0 :: tables.Translation(l) == old(tables.Translation(l))
      ensures var b := ipa / BLOCK_2MB;
              && (r.Ok? <==> L1Index(b) in old(used) || (|old(used)| < 4 && old(tables.heap.Available()) > 0))
              && Translation() == (if r.Ok? then SetBlock(old(Translation()), LowBlock(b), BlockEntry(b, attr)) else old(Translation()))
              && used == (if r.Ok? then old(used) + {L1Index(b)} else old(used))
              && tables.heap.Available() == old(tables.heap.Available()) - (if r.Ok? && L1Index(b) !in old(used) then 1 else 0)
              && Blocks(tables.heap.mem, l0) == Blocks(old(tables.heap.mem), l0) + (if r.Ok? then {LowBlock(b)} else {})
    {
      hide View, Blocks, Shape, BumpAllocator.Valid, SetBlock, I0, I1, I2, BlockDesc, BlockEntry, PageOf, HighOf, L1Index, LowBlock;
      ghost var b := ipa / BLOCK_2MB;
      var p := PageOf(ipa);
      BlockPlaces(ipa, attr);
      var l2 := GetOrCreateL2(I1(p));
      if l2.None? { return Err; }
      assert L2Table(tables.heap.mem, l0, LowBlock(b) * 512) == Some(l2.value);
      StoreBlock(LowBlock(b), l2.value, I2(p), BlockDesc(p, HighOf(ipa), attr));
      r := Ok;
    }

    /** Writes the descriptor of the block in slot `b`. */
    method StoreBlock(ghost b: U27, t: PageNo, i: U9, e: Pte)
      requires Valid() && L2Table(tables.heap.mem, l0, b * 512) == Some(t)
      requires i == I2(b * 512) && IsBlock(e) && e.low == 0
      modifies tables.heap`mem
      ensures Valid() && tables.heap.Available() == old(tables.heap.Available())
      ensures forall l | tables.Root(l) && l != l0 :: tables.Translation(l) == old(tables.Translation(l))
      ensures Translation() == SetBlock(old(Translation()), b, e)
      ensures Blocks(tables.heap.mem, l0) == Blocks(old(tables.heap.mem), l0) + {b}
    {
      hide View, Blocks, Shape, BumpAllocator.Valid, SetBlock;
      ghost var before := tables.heap.mem;
      BlockWrite(before, tables.nodes, l0, b, e);
      TablePage(before, tables.nodes, t);
      assert UsedAre(before, l1, used);
      tables.heap.Store(t, i, e);
    }

    /** `split_2mb_block`: the L3 table that replaces a block. */
    method Split2mbBlock(ghost p: PageNo, t: PageNo, i: U9, block: Pte) returns (r: Option<PageNo>)
      requires Valid() && L2Table(tables.heap.mem, l0, p) == Some(t) && i == I2(p)
      requires block == At(tables.heap.mem, t, i) && IsBlock(block)
      modifies tables, tables.heap
      ensures Valid() && Extends(old(tables.nodes), tables.nodes)
      ensures SameViews(old(tables.heap.mem), tables.heap.mem, old(tables.nodes))
      ensures KeepsL2(old(tables.heap.mem), tables.heap.mem, l0)
      ensures r.Some? <==> old(tables.heap.Available()) > 0
      ensures r.None? ==> tables.heap.Available() == 0 && Blocks(tables.heap.mem, l0) == Blocks(old(tables.heap.mem), l0)
      ensures r.Some? ==>
                && L2Entry(tables.heap.mem, l0, p).IsTable() && L2Entry(tables.heap.mem, l0, p).Page() == r.value
                && tables.heap.Available() == old(tables.heap.Available()) - 1
                && Blocks(tables.heap.mem, l0) == Blocks(old(tables.heap.mem), l0) - {p / 512}
    {
      hide View, Blocks, Shape, KeepsL2, BumpAllocator.Valid, BreakBeforeMake.Sequence, BreakBeforeMake.Legal;
      WalkPlaces(tables.heap.mem, tables.nodes, l0, p);
      ghost var mem0 := tables.heap.mem;
      TablePage(mem0, tables.nodes, l0);
      TablePage(mem0, tables.nodes, l1);
      r := tables.NewPage();
      assert UsedAre(mem0, l1, used) && forall i: U9 :: At(tables.heap.mem, l1, i) == At(mem0, l1, i);
      SameTables(mem0, tables.heap.mem, tables.nodes);
      L2Unchanged(mem0, tables.heap.mem, l0);
      if r.None? { return; }
      LastIn(tables.heap.outstanding);
      ghost var mem1 := tables.heap.mem;
      ghost var _ := tables.InstallSplit(l0, p, t, i, r.value, block);
      KeepsL2Trans(mem0, mem1, tables.heap.mem, l0);
    }

    /** `unmap_4kb_page`: afterwards exactly one page is not translated. */
    method Unmap4kbPage(ipa: nat) returns (r: Outcome)
      requires Valid()
      modifies tables, tables.heap
      ensures Valid() && Extends(old(tables.nodes), tables.nodes)
      ensures forall l | old(tables.Root(l)) && l != l0 :: tables.Translation(l) == old(tables.Translation(l))
      ensures r.Ok? <==> L2Entry(old(tables.heap.mem), l0, LowPage(ipa)).valid && CanSplit(old(tables.heap.Available()), Blocks(old(tables.heap.mem), l0), LowPage(ipa))
      ensures Translation() == if r.Ok? then old(Translation()) - {LowPage(ipa)} else old(Translation())
      ensures KeepsL2(old(tables.heap.mem), tables.heap.mem, l0)
      ensures SplitCost(old(tables.heap.Available()), Blocks(old(tables.heap.mem), l0), LowPage(ipa), tables.heap.Available(), Blocks(tables.heap.mem, l0))
    {
      hide View, Blocks, Shape, KeepsL2, BumpAllocator.Valid;
      var p := LowPage(ipa);
      ghost var mem0 := tables.heap.mem;
      LeafPlace(mem0, tables.nodes, l0, p);
      L2Unchanged(mem0, mem0, l0);
      assert I0(p) == 0;
      var e1 := At(tables.heap.mem, l1, I1(p));
      if !e1.IsTable() { return Err; }
      var t2 := e1.Page();
      var e2 := At(tables.heap.mem, t2, I2(p));
      assert e2 == L2Entry(mem0, l0, p);
      var t3;
      if e2.valid && !e2.table {
        var split := Split2mbBlock(p, t2, I2(p), e2);
        if split.None? { return Err; }
        t3 := split.value;
      } else if e2.IsTable() {
        t3 := e2.Page();
      } else {
        return Err;
      }
      ghost var mem1 := tables.heap.mem;
      ClearPage(p, t3, I3(p));
      KeepsL2Trans(mem0, mem1, tables.heap.mem, l0);
      r := Ok;
    }

    /** Zeroes the L3 descriptor of `p`. */
    method ClearPage(ghost p: PageNo, t: PageNo, i: U9)
      requires Valid() && L2Entry(tables.heap.mem, l0, p).IsTable() && t == L2Entry(tables.heap.mem, l0, p).Page() && i == I3(p)
      modifies tables.heap`mem
      ensures Valid() && tables.heap.Available() == old(tables.heap.Available())
      ensures forall l | tables.Root(l) && l != l0 :: tables.Translation(l) == old(tables.Translation(l))
      ensures Translation() == old(Translation()) - {p}
      ensures Blocks(tables.heap.mem, l0) == Blocks(old(tables.heap.mem), l0) && KeepsL2(old(tables.heap.mem), tables.heap.mem, l0)
    {
      hide View, Blocks, Shape, KeepsL2, BumpAllocator.Valid;
      WalkPlaces(tables.heap.mem, tables.nodes, l0, p);
      assert UsedAre(tables.heap.mem, l1, used);
      tables.StoreLeaf(l0, p, t, i, ZERO);
    }
  }

  /** The loop of `map_region` is at an offset when it maps block `b`. */
  ghost predicate StandsAt(ipa: nat, size: nat, offset: nat, b: nat)
  {
    && offset == (b - ipa / BLOCK_2MB) * BLOCK_2MB && ipa / BLOCK_2MB <= b <= EndBlock(ipa, size)
    && (offset >= size ==> b == EndBlock(ipa, size))
  }

  lemma StandsStart(ipa: nat, size: nat)
    ensures StandsAt(ipa, size, 0, ipa / BLOCK_2MB) && ipa / BLOCK_2MB <= EndBlock(ipa, size)
  {
  }

  lemma StandsStep(ipa: nat, size: nat, offset: nat, b: nat)
    requires StandsAt(ipa, size, offset, b) && offset < size
    ensures (ipa + offset) / BLOCK_2MB == b < EndBlock(ipa, size) && StandsAt(ipa, size, offset + BLOCK_2MB, b + 1)
  {
  }

  lemma StandsEnd(ipa: nat, size: nat, offset: nat, b: nat)
    requires StandsAt(ipa, size, offset, b) && offset >= size
    ensures b == EndBlock(ipa, size)
  {
  }

  // ---- blocks by number ----

  /** How many blocks and L1 slots there are below 512GB. */
  const BLOCKS_512GB := 0x4_0000

  /** The slot of block `b`, which is the block's own number below 512GB. */
  function LowBlock(b: nat): U27 { b % BLOCKS_512GB }

  function L1Index(b: nat): U9 { b / 512 % 512 }

  /** The descriptor of block `b`. */
  function BlockEntry(b: int, attr: MemoryAttribute): Pte { BlockDesc(b % 0x800_0000 * 512, b / 0x800_0000 % 0x1_0000, attr) }

  /** An address and its block's slot agree on the indices, and on the descriptor. */
  lemma BlockPlaces(ipa: nat, attr: MemoryAttribute)
    ensures var p, b := PageOf(ipa), ipa / BLOCK_2MB; var c := LowBlock(b);
            && I0(c * 512) == 0 && I1(c * 512) == I1(p) == L1Index(b) && I2(c * 512) == I2(p)
            && BlockDesc(p, HighOf(ipa), attr) == BlockEntry(b, attr) && IsBlock(BlockEntry(b, attr)) && BlockEntry(b, attr).low == 0
  {
    var q, b := ipa / 4096, ipa / BLOCK_2MB;
    assert b == q / 512;
    BlockSlots(q);
  }

  lemma BlockSlots(q: nat)
    ensures var p: PageNo, b := q % PAGES, q / 512; var c := LowBlock(b);
            && I0(c * 512) == 0 && I1(c * 512) == I1(p) == L1Index(b) && I2(c * 512) == I2(p)
            && p / 512 == b % 0x800_0000 && q / PAGES == b / 0x800_0000
  {
    var b, z := q / 512, q % 512;
    var k, c := b / BLOCKS_512GB, b % BLOCKS_512GB;
    var h, y := k / 512, k % 512;
    assert b == h * 0x800_0000 + (y * BLOCKS_512GB + c);
    assert q == h * PAGES + (y * 0x800_0000 + c * 512 + z);
    var p: PageNo := y * 0x800_0000 + c * 512 + z;
    assert q % PAGES == p && q / PAGES == h;
    LowSlots(p, y, c, z);
    assert b / 512 == k * 512 + c / 512;
  }

  lemma LowSlots(p: PageNo, y: nat, c: nat, z: nat)
    requires p == y * 0x800_0000 + c * 512 + z && y < 512 && c < BLOCKS_512GB && z < 512
    ensures p / 512 == y * BLOCKS_512GB + c
    ensures I0(c * 512) == 0 && I1(c * 512) == I1(p) == c / 512 && I2(c * 512) == I2(p)
  {
    var c1, c0 := c / 512, c % 512;
    assert c * 512 == c1 * 0x4_0000 + c0 * 512;
    assert p == (y * 512 + c1) * 0x4_0000 + (c0 * 512 + z);
    assert p / 0x4_0000 == y * 512 + c1 && c * 512 / 0x4_0000 == c1;
    assert p / 512 == (y * 512 + c1) * 512 + c0 && c * 512 / 512 == c1 * 512 + c0;
    assert I1(p) == c1 && I1(c * 512) == c1;
    assert I2(p) == c0 && I2(c * 512) == c0;
  }

  /** The last block below `hi` in the slot `c`. */
  function LastIn512GB(hi: nat, c: U27): int { hi - 1 - (hi - 1 - c) % BLOCKS_512GB }

  /** The slot `c` gets one of the blocks from `lo` to `hi`. */
  ghost predicate Covered(lo: nat, hi: nat, c: U27) { c < BLOCKS_512GB && lo <= LastIn512GB(hi, c) }

  /** A translation with the blocks `lo <= b < hi` written: a later one replaces an earlier one. */
  ghost function Overlay(v: map<PageNo, Leaf>, lo: nat, hi: nat, attr: MemoryAttribute): map<PageNo, Leaf>
  {
    map p: PageNo | p in v || Covered(lo, hi, BlockOf(p)) ::
      if Covered(lo, hi, BlockOf(p)) then LeafOf(BlockEntry(LastIn512GB(hi, BlockOf(p)), attr), 2, p) else v[p]
  }

  lemma CoveredStep(lo: nat, b: nat, c: U27)
    requires lo <= b
    ensures if c == LowBlock(b) then Covered(lo, b + 1, c) && LastIn512GB(b + 1, c) == b
            else Covered(lo, b + 1, c) == Covered(lo, b, c) && (c < BLOCKS_512GB ==> LastIn512GB(b + 1, c) == LastIn512GB(b, c))
  {
  }

  lemma OverlayStep(v: map<PageNo, Leaf>, lo: nat, b: nat, attr: MemoryAttribute)
    requires lo <= b
    ensures SetBlock(Overlay(v, lo, b, attr), LowBlock(b), BlockEntry(b, attr)) == Overlay(v, lo, b + 1, attr)
  {
    hide LowBlock, BlockEntry, LeafOf, LastIn512GB, Covered;
    forall c: U27
      ensures if c == LowBlock(b) then Covered(lo, b + 1, c) && LastIn512GB(b + 1, c) == b
              else Covered(lo, b + 1, c) == Covered(lo, b, c) && (Covered(lo, b, c) ==> LastIn512GB(b + 1, c) == LastIn512GB(b, c))
    {
      CoveredStep(lo, b, c);
      CoveredIsLow(lo, b, c);
    }
  }

  lemma CoveredIsLow(lo: nat, hi: nat, c: U27)
    ensures Covered(lo, hi, c) ==> c < BLOCKS_512GB && lo <= LastIn512GB(hi, c)
  {
  }

  /** Below 512GB exactly the pages of the region are mapped, each to itself. */
  lemma OverlayBelow(lo: nat, hi: nat, attr: MemoryAttribute, p: PageNo)
    requires hi <= BLOCKS_512GB
    ensures Covered(lo, hi, BlockOf(p)) <==> Within(lo, hi, p / 512)
    ensures Covered(lo, hi, BlockOf(p)) ==> LeafOf(BlockEntry(LastIn512GB(hi, BlockOf(p)), attr), 2, p) == BlockLeaf(p, attr)
  {
  }

  /** A region of 64-bit addresses is mapped to itself if and only if it lies below 512GB. */
  lemma IdentityExactly(lo: nat, hi: nat, attr: MemoryAttribute)
    requires lo < hi <= 0x800_0000_0000
    ensures (forall p: PageNo :: Within(lo, hi, p / 512) <==> Covered(lo, hi, BlockOf(p))) &&
            (forall p: PageNo :: Covered(lo, hi, BlockOf(p)) ==> LeafOf(BlockEntry(LastIn512GB(hi, BlockOf(p)), attr), 2, p) == BlockLeaf(p, attr))
            <==> hi <= BLOCKS_512GB
  {
    if hi <= BLOCKS_512GB {
      forall p: PageNo
        ensures Within(lo, hi, p / 512) <==> Covered(lo, hi, BlockOf(p))
        ensures Covered(lo, hi, BlockOf(p)) ==> LeafOf(BlockEntry(LastIn512GB(hi, BlockOf(p)), attr), 2, p) == BlockLeaf(p, attr)
      {
        OverlayBelow(lo, hi, attr, p);
      }
    } else {
      var b := hi - 1;
      CoveredStep(lo, b, LowBlock(b));
      var p: PageNo := LowBlock(b) * 512;
      assert BlockOf(p) == LowBlock(b);
      OtherLeaf(b, attr, p);
    }
  }

  lemma OtherLeaf(b: nat, attr: MemoryAttribute, p: PageNo)
    requires BLOCKS_512GB <= b < 0x800_0000_0000 && p == LowBlock(b) * 512
    ensures LeafOf(BlockEntry(b, attr), 2, p) != BlockLeaf(p, attr)
  {
  }

  lemma L2Unchanged(mem: Mem, mem': Mem, l0: PageNo)
    requires forall p: PageNo :: L2Entry(mem', l0, p) == L2Entry(mem, l0, p)
    ensures KeepsL2(mem, mem', l0)
  {
    hide L2Entry;
  }

  lemma KeepsL2Trans(mem: Mem, mem': Mem, mem'': Mem, l0: PageNo)
    requires KeepsL2(mem, mem', l0) && KeepsL2(mem', mem'', l0)
    ensures KeepsL2(mem, mem'', l0)
  {
    hide L2Entry;
  }

  function EndBlock(ipa: nat, size: nat): nat { ipa / BLOCK_2MB + (size + BLOCK_2MB - 1) / BLOCK_2MB }

  predicate Within(lo: int, hi: int, x: int) { lo <= x < hi }

  /** The L1 indices that the blocks `lo <= b < hi` need, and their slots. */
  ghost function L1Range(lo: nat, hi: nat): set<U9> { set b: nat | lo <= b < hi :: L1Index(b) }

  ghost function LowBlocks(lo: nat, hi: nat): set<U27> { set b: nat | lo <= b < hi :: LowBlock(b) }

  lemma RangesGrow(lo: nat, b: nat, hi: nat)
    requires lo <= b < hi
    ensures L1Range(lo, b + 1) == L1Range(lo, b) + {L1Index(b)}
    ensures L1Range(lo, b + 1) <= L1Range(lo, hi)
    ensures LowBlocks(lo, b + 1) == LowBlocks(lo, b) + {LowBlock(b)}
  {
  }

  /** Adding an index to those needed costs one table unless it is there already. */
  lemma AddIndex(used: set<U9>, need: set<U9>, x: U9, all: set<U9>)
    requires need + {x} <= all
    ensures |need + {x} - used| == |need - used| + (if x in used + need then 0 else 1)
    ensures |used + need + {x}| == |used + need| + (if x in used + need then 0 else 1)
    ensures |need + {x} - used| <= |all - used|
    ensures |used + need + {x}| <= |used + all|
  {
    if x in used + need {
      assert need + {x} - used == need - used;
      assert used + need + {x} == used + need;
    } else {
      assert need + {x} - used == (need - used) + {x};
    }
    SubsetSize(need + {x} - used, all - used);
    SubsetSize(used + need + {x}, used + all);
  }

  /** What `map_region` changes: the translation, the L1 slots in use, the heap and the blocks. */
  datatype Mapping = Mapping(view: map<PageNo, Leaf>, used: set<U9>, available: nat, blocks: set<U27>)

  /** The blocks from `lo` to `b` have been mapped. */
  ghost predicate MappedTo(m0: Mapping, m: Mapping, lo: nat, b: nat, attr: MemoryAttribute)
  {
    && m.view == Overlay(m0.view, lo, b, attr) && m.used == m0.used + L1Range(lo, b) && m.blocks == m0.blocks + LowBlocks(lo, b)
    && m.available == m0.available - |L1Range(lo, b) - m0.used|
  }

  ghost predicate Affords(m: Mapping, need: set<U9>) { |m.used + need| <= 4 && |need - m.used| <= m.available }

  lemma NothingYet(m: Mapping, lo: nat, attr: MemoryAttribute)
    ensures MappedTo(m, m, lo, lo, attr)
  {
    forall c: U27 ensures !Covered(lo, lo, c) {}
    assert Overlay(m.view, lo, lo, attr) == m.view && L1Range(lo, lo) == {} && LowBlocks(lo, lo) == {};
  }

  lemma MappedStep(m0: Mapping, m: Mapping, lo: nat, b: nat, hi: nat, attr: MemoryAttribute)
    requires MappedTo(m0, m, lo, b, attr) && lo <= b < hi
    requires L1Index(b) in m.used || (|m.used| < 4 && m.available > 0)
    ensures MappedTo(m0, Mapping(SetBlock(m.view, LowBlock(b), BlockEntry(b, attr)), m.used + {L1Index(b)},
                                 if L1Index(b) in m.used then m.available else m.available - 1, m.blocks + {LowBlock(b)}), lo, b + 1, attr)
  {
    hide Overlay, L1Range, LowBlocks, SetBlock, BlockEntry, L1Index, LowBlock;
    RangesGrow(lo, b, hi);
    AddIndex(m0.used, L1Range(lo, b), L1Index(b), L1Range(lo, hi));
    OverlayStep(m0.view, lo, b, attr);
  }

  lemma MappedFail(m0: Mapping, m: Mapping, lo: nat, b: nat, hi: nat, attr: MemoryAttribute)
    requires MappedTo(m0, m, lo, b, attr) && lo <= b < hi
    requires !(L1Index(b) in m.used || (|m.used| < 4 && m.available > 0))
    ensures !Affords(m0, L1Range(lo, hi)) && m.view == Overlay(m0.view, lo, b, attr)
  {
    hide Overlay, L1Range, LowBlocks, L1Index;
    RangesGrow(lo, b, hi);
    AddIndex(m0.used, L1Range(lo, b), L1Index(b), L1Range(lo, hi));
  }

  lemma MappedEnd(m0: Mapping, m: Mapping, lo: nat, hi: nat, attr: MemoryAttribute)
    requires MappedTo(m0, m, lo, hi, attr) && |m.used| <= 4
    ensures Affords(m0, L1Range(lo, hi))
  {
  }

  /** Allocates and links the two topmost tables of a VM. */
  method MakeRoot(tables: Tables) returns (a: PageNo, b: PageNo)
    requires tables.Valid() && tables.heap.Available() >= 2
    modifies tables, tables.heap
    ensures tables.Valid() && Extends(old(tables.nodes), tables.nodes)
    ensures tables.heap.Available() == old(tables.heap.Available()) - 2
    ensures tables.Root(a) && a !in old(tables.nodes) && b in tables.nodes && tables.nodes[b] == Node(a, 1, 0)
    ensures At(tables.heap.mem, a, 0) == TableDesc(b) && forall i: U9 :: At(tables.heap.mem, b, i) == ZERO
    ensures tables.Translation(a) == map[] && Blocks(tables.heap.mem, a) == {}
    ensures forall l | old(tables.Root(l)) :: tables.Translation(l) == old(tables.Translation(l))
  {
    hide View, Blocks, Shape;
    ghost var mem0 := tables.heap.mem;
    a, b := TwoPages(tables);
    SameTables(mem0, tables.heap.mem, tables.nodes);
    ghost var mem1 := tables.heap.mem;
    tables.heap.StorePage(a, EMPTY);
    tables.heap.StorePage(b, EMPTY);
    tables.heap.Store(a, 0, TableDesc(b));
    NewRoot(mem1, tables.nodes, a, b);
    tables.nodes := RootNodes(tables.nodes, a, b);
  }

  method TwoPages(tables: Tables) returns (a: PageNo, b: PageNo)
    requires tables.Valid() && tables.heap.Available() >= 2
    modifies tables.heap
    ensures tables.Valid() && tables.heap.Available() == old(tables.heap.Available()) - 2
    ensures a != b && a !in tables.nodes && b !in tables.nodes && tables.heap.IsPage(a) && tables.heap.IsPage(b)
    ensures forall t <- tables.nodes :: t in tables.heap.mem && tables.heap.mem[t] == old(tables.heap.mem[t])
  {
    hide View, Blocks, Shape;
    var first := tables.NewPage();
    ghost var was := tables.heap.outstanding;
    LastIn(was);
    var second := tables.NewPage();
    LastIn(tables.heap.outstanding);
    FreshPage(was, second.value);
    a, b := first.value, second.value;
  }

  /** Table pages keep their place and every older root keeps its translation and blocks. */
  ghost predicate Kept(nodes: Nodes, mem: Mem, nodes': Nodes, mem': Mem)
  {
    && Extends(nodes, nodes') && SameViews(mem, mem', nodes)
    && forall l | IsRoot(nodes, l) :: Blocks(mem', l) == Blocks(mem, l)
  }

  lemma L1HasNoBlocks(mem: Mem, nodes: Nodes, l1: PageNo, i: U9)
    requires Shape(mem, nodes) && l1 in nodes && nodes[l1].level == 1
    ensures At(mem, l1, i).valid ==> At(mem, l1, i).table
  {
    assert SlotOk(nodes, nodes[l1], i, At(mem, l1, i));
  }

  ghost predicate UsedAre(mem: Mem, l1: PageNo, used: set<U9>)
  {
    forall i: U9 :: i in used <==> At(mem, l1, i).valid
  }
}
