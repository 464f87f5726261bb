/** The proxy from boot on: each handler call is a step of the protocol and keeps its invariant. */
module ProxyRun {
  import opened Descriptor
  import opened PageTable
  import opened TableEdits
  import opened Allocator
  import opened Sizes
  import opened Walker
  import opened Mapper
  import opened ShareProtocol
  import opened ShareInvariant
  import opened Proxy
  import VmMemory

  /** Every page is the VM's own and read-write. */
  ghost predicate Untouched(v: Translation) { forall p <- v :: v[p].sw == OWNED && Readable(v[p]) && Writable(v[p]) }

  /** So it is after `init_memory_dynamic`. */
  lemma BootUntouched(lo: nat, hi: nat, trap: set<PageNo>)
    ensures Untouched(VmMemory.BootView(lo, hi, trap))
  {
    hide TableEdits.BlockLeaf;
    var v := VmMemory.BootView(lo, hi, trap);
    forall p <- v ensures v[p].sw == OWNED && Readable(v[p]) && Writable(v[p]) {
      VmMemory.BootLeaf(p, if p / 512 in VmMemory.GicBlocks() then Device else Normal);
    }
  }

  /** Two VMs whose pages are all their own, and no share. */
  method Start(tables: Tables, l0: seq<PageNo>) returns (p: FfaProxy)
    requires tables.Valid() && |l0| == MAX_VMS && l0[0] != l0[1] && tables.Root(l0[0]) && tables.Root(l0[1])
    requires Untouched(tables.Translation(l0[0])) && Untouched(tables.Translation(l0[1]))
    ensures fresh(p) && fresh(p.records) && p.Fine() && Inv(p.Abs()) && p.tables == tables && p.l0 == l0
    ensures p.nextHandle == 1 && forall r <- p.records[..] :: !r.active
  {
    hide View, Blocks, Shape, BumpAllocator.Valid, Tables.Valid, Inv;
    p := new FfaProxy(tables, l0);
    BootKeeps(p.Abs());
  }

  /** What `init_memory_dynamic` reads from the device tree for one VM. */
  datatype Guest = Guest(start: nat, size: nat, gicd: nat, gicrs: seq<nat>) {
    predicate Ok()
    {
      && start % BLOCK_2MB == 0 && size % BLOCK_2MB == 0 && start + size <= PAGES_512GB * 4096
      && VmMemory.FitsGic(gicd, 16) && forall g <- gicrs :: VmMemory.FitsGic(g, 32)
    }

    ghost function View(): Translation { VmMemory.BootView(start / BLOCK_2MB, (start + size) / BLOCK_2MB, VmMemory.TrapPages(gicd, gicrs)) }

    ghost predicate Fits(available: int)
    {
      VmMemory.Room(start / BLOCK_2MB, (start + size) / BLOCK_2MB, VmMemory.TrapPages(gicd, gicrs), available - 2)
    }

    ghost function Cost(): nat { 2 + VmMemory.Cost(start / BLOCK_2MB, (start + size) / BLOCK_2MB, VmMemory.TrapPages(gicd, gicrs)) }
  }

  /** Two VMs boot one after the other, and the proxy starts. */
  method Boot(tables: Tables, a: Guest, b: Guest) returns (p: FfaProxy)
    requires tables.Valid() && a.Ok() && b.Ok()
    requires a.Fits(tables.heap.Available()) && b.Fits(tables.heap.Available() - a.Cost())
    modifies tables, tables.heap
    ensures fresh(p) && p.Fine() && Inv(p.Abs()) && p.tables == tables
    ensures p.Abs().views == [a.View(), b.View()] && p.nextHandle == 1 && forall r <- p.records[..] :: !r.active
  {
    hide View, Blocks, Shape, BumpAllocator.Valid, Tables.Valid, DynamicIdentityMapper.Valid, Inv, FfaProxy.Fine, Untouched;
    hide VmMemory.BootView, VmMemory.TrapPages, VmMemory.Cost, VmMemory.L1Of;
    BootUntouched(a.start / BLOCK_2MB, (a.start + a.size) / BLOCK_2MB, VmMemory.TrapPages(a.gicd, a.gicrs));
    BootUntouched(b.start / BLOCK_2MB, (b.start + b.size) / BLOCK_2MB, VmMemory.TrapPages(b.gicd, b.gicrs));
    var m0, _ := VmMemory.InitMemoryDynamic(tables, a.start, a.size, a.gicd, a.gicrs);
    MapperRoot(m0);
    var m1, _ := VmMemory.InitMemoryDynamic(tables, b.start, b.size, b.gicd, b.gicrs);
    MapperRoot(m1);
    p := Start(tables, [m0.l0, m1.l0]);
  }

  lemma MapperRoot(m: DynamicIdentityMapper)
    requires m.Valid()
    ensures m.tables.Valid() && m.tables.Root(m.l0)
  {
  }

  /** What the environment owes beyond `Disciplined`: heap for the splits of an accepted share. */
  ghost predicate Affordable(p: FfaProxy, op: Op)
    requires p.Valid() && OpOk(op)
    reads p, p.records, p.tables, p.tables.heap
  {
    op.Share? && ShareAccepted(p.Abs(), op.vm, op.descSender, op.receiver, op.ranges) ==> p.CanPay(op.vm, Pages(op.ranges))
  }

  /** The operation with the outcome that the tables allow. */
  ghost function Resolved(p: FfaProxy, op: Op): Op
    requires p.Valid()
    reads p, p.records, p.tables, p.tables.heap
  {
    if op.Retrieve? then op.(tablesFit := p.TablesFit(op.vm, op.handle)) else op
  }

  /** One trapped call: a step of the protocol exactly if it is affordable, and a disciplined step
      keeps the invariant. */
  method Serve(p: FfaProxy, op: Op) returns (reply: Reply)
    requires p.Fine() && OpOk(op)
    modifies p, p.records, p.tables, p.tables.heap
    ensures p.Fine()
    ensures (p.Abs(), reply) == Step(old(p.Abs()), old(Resolved(p, op))) <==> old(Affordable(p, op))
    ensures old(Inv(p.Abs()) && Disciplined(p.Abs(), op) && Affordable(p, op)) ==> Inv(p.Abs())
  {
    hide View, Blocks, Shape, BumpAllocator.Valid, Tables.Valid, Inv, FfaProxy.CanPay, FfaProxy.TablesFit, FfaProxy.Fine, Pages, SetPages;
    hide ShareSpec, ReclaimSpec, RetrieveSpec, RelinquishSpec, Find, ShareAccepted;
    SysFine(p);
    ghost var was := Resolved(p, op);
    match op {
      case Share(vm, descSender, receiver, ranges, isLend) =>
        reply := p.MemShareOrLend(vm, descSender, receiver, ranges, isLend);
      case Reclaim(vm, h) =>
        reply := p.MemReclaim(vm, h);
      case Retrieve(vm, h, _) =>
        reply := p.MemRetrieveReq(vm, h);
      case Relinquish(vm, h) =>
        reply := p.MemRelinquish(vm, h);
    }
    if old(Inv(p.Abs()) && Disciplined(p.Abs(), op) && Affordable(p, op)) { StepKeeps(old(p.Abs()), was); }
  }

  lemma SysFine(p: FfaProxy)
    requires p.Fine()
    ensures p.Valid() && SysOk(p.Abs())
  {
  }

  // ---- a share that the heap cannot pay for ----

  /** The two roots of two VMs and one 2MB block use up a heap of five pages. */
  method FiveTables() returns (p: FfaProxy)
    ensures fresh(p) && fresh(p.records) && fresh(p.tables) && fresh(p.tables.heap)
    ensures p.Fine() && Inv(p.Abs()) && p.tables.heap.Available() == 0 && p.Blk(0) == {0}
    ensures 0 in p.Abs().views[0] && p.Abs().views[0][0].sw == OWNED
    ensures p.nextHandle == 1 && forall r <- p.records[..] :: !r.active
  {
    hide View, Blocks, Shape, BumpAllocator.Valid, BumpAllocator.Available, Tables.Valid, DynamicIdentityMapper.Valid, Inv, FfaProxy.Fine;
    hide Overlay, L1Range, LowBlocks, EndBlock, Untouched;
    var tables, m0, m1 := TwoRoots();
    OneBlock();
    var _ := m0.MapRegion(0, BLOCK_2MB, Normal);
    OneBlockUntouched();
    MapperRoot(m0);
    p := Start(tables, [m0.l0, m1]);
  }

  method TwoRoots() returns (tables: Tables, m0: DynamicIdentityMapper, m1: PageNo)
    ensures fresh(tables) && fresh(tables.heap) && fresh(m0) && m0.Valid() && m0.tables == tables && m0.used == {} && m0.Translation() == map[]
    ensures Blocks(tables.heap.mem, m0.l0) == {} && tables.heap.Available() == 1
    ensures tables.Root(m1) && m1 != m0.l0 && tables.Translation(m1) == map[]
  {
    hide View, Blocks, Shape, BumpAllocator.Valid, BumpAllocator.Available, Tables.Valid, DynamicIdentityMapper.Valid;
    var heap := FivePages();
    tables := new Tables(heap);
    var first := new DynamicIdentityMapper(tables);
    MapperRoot(first);
    m0 := new DynamicIdentityMapper(tables);
    m1 := first.l0;
  }

  method FivePages() returns (heap: BumpAllocator)
    ensures fresh(heap) && heap.Valid() && heap.Available() == 5
  {
    heap := new BumpAllocator(4096, 5 * 4096, map[1 := EMPTY, 2 := EMPTY, 3 := EMPTY, 4 := EMPTY, 5 := EMPTY]);
  }

  lemma OneBlock()
    ensures L1Range(0, 1) == {0} && LowBlocks(0, 1) == {0} && EndBlock(0, BLOCK_2MB) == 1
  {
    VmMemory.L1OfRange(0, 1);
    assert VmMemory.BlockRange(0, 1) == {0};
  }

  lemma OneBlockUntouched()
    ensures Untouched(map[]) && Untouched(Overlay(map[], 0, 1, Normal))
    ensures 0 in Overlay(map[], 0, 1, Normal) && Overlay(map[], 0, 1, Normal)[0].sw == OWNED
  {
    var v := Overlay(map[], 0, 1, Normal);
    forall p <- v ensures v[p].sw == OWNED && Readable(v[p]) && Writable(v[p]) {
      OverlayBelow(0, 1, Normal, p);
      VmMemory.BootLeaf(p, Normal);
    }
    OverlayBelow(0, 1, Normal, 0);
  }

  /** A share of a page in the block is answered with a handle although the page stays owned and
      writable, and the invariant is lost. */
  method UnpaidShare() returns (p: FfaProxy, reply: Reply)
    ensures reply == Success(1) && p.Fine() && 0 in p.Abs().views[0] && p.Abs().views[0][0].sw == OWNED && !Inv(p.Abs())
  {
    hide View, Blocks, Shape, BumpAllocator.Valid, Tables.Valid, Pages, FfaProxy.Fine;
    p := FiveTables();
    ghost var s := p.Abs();
    SysFine(p);
    OnePage();
    reply := p.MemShareOrLend(0, 0, PartitionId(1), [Range(0, 1)], false);
    SysFine(p);
    StillOwned(s, p.Abs(), p.tables.heap.Available(), p.Blk(0));
  }

  lemma OnePage()
    ensures InRange(Range(0, 1)) && RangesOk([Range(0, 1)]) && Pages([Range(0, 1)]) == {0}
  {
    assert [Range(0, 1)][..0] == [];
    assert RangeList(Range(0, 1), 1) == [0];
  }

  lemma StillOwned(s: Sys, s': Sys, a: nat, b: set<U27>)
    requires SysOk(s) && SysOk(s') && (forall r <- s.records :: !r.active) && InRange(Range(0, 1)) && Pages([Range(0, 1)]) == {0}
    requires 0 in s.views[0] && s.views[0][0].sw == OWNED && Paid(0, {0}, {0}, a, b)
    requires s'.views == s.views[0 := SetPages(s.views[0], Outside({0}, b), SHARED_OWNED, S2AP_RO)]
    requires s'.records == ShareSpec(s, 0, 0, 2, [Range(0, 1)], false).0.records
    ensures 0 in s'.views[0] && s'.views[0][0].sw == OWNED && !Inv(s')
  {
    hide Pages;
    SubsetSize(b, {0});
    assert b == {0};
    assert AllOwned(s.views[0], {0}) && !s.records[0].active by { assert s.records[0] in s.records; }
    assert SentCovers(s'.records, 0, 0, 0);
  }
}
