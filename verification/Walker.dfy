/** The Stage-2 tables of all VMs in hypervisor memory, and the operations of `Stage2Walker`
(src/ffa/stage2_walker.rs).  A walker of the hypervisor is a root address; here the root is
the first argument of each operation. */
module Walker {
  import opened Descriptor
  import opened PageTable
  import opened TableEdits
  import opened Allocator
  import BreakBeforeMake

  /** The page number a walk derives from an IPA: bits 47:12. */
  function PageOf(ipa: nat): PageNo { ipa / 4096 % PAGES }

  /** Bits 63:48, which a walk ignores. */
  function HighOf(ipa: nat): nat { ipa / 4096 / PAGES % 0x1_0000 }

  class Tables {
    const heap: BumpAllocator
    /** The place of every table page. */
    ghost var nodes: Nodes

    ghost predicate Valid()
      reads this, heap
    {
      && heap.Valid()
      && Shape(heap.mem, nodes)
      && AllPages(heap.outstanding, nodes)
    }

    ghost predicate Root(l0: PageNo) reads this { IsRoot(nodes, l0) }

    /** The translation of a root. */
    ghost function Translation(l0: PageNo): map<PageNo, Leaf>
      reads heap
    {
      View(heap.mem, l0)
    }

    constructor (heap: BumpAllocator)
      requires heap.Valid()
      ensures Valid() && this.heap == heap && nodes == map[]
    {
      this.heap := heap;
      this.nodes := map[];
    }

    /** `read_sw_bits`. */
    function ReadSwBits(l0: PageNo, ipa: nat): (r: Option<U2>)
      reads heap
      ensures r == if PageOf(ipa) in Translation(l0) then Some(Translation(l0)[PageOf(ipa)].sw) else None
    {
      match LeafSlot(heap.mem, l0, PageOf(ipa))
      case None => None
      case Some(s) => Some(At(heap.mem, s.table, s.index).sw)
    }

    /** A page that no table uses; the tables are untouched. */
    method NewPage() returns (r: Option<PageNo>)
      requires Valid()
      modifies heap
      ensures Valid()
      ensures r.Some? <==> old(heap.Available()) > 0
      ensures forall t <- nodes :: t in heap.mem && heap.mem[t] == old(heap.mem[t])
      ensures r.None? ==> heap.Available() == 0
      ensures r.Some? ==>
                && r.value !in nodes && heap.outstanding == old(heap.outstanding) + [PageRegion(r.value)]
                && heap.Available() == old(heap.Available()) - 1
                && r.value in heap.mem && |heap.mem[r.value]| == 512
    {
      ghost var was := heap.outstanding;
      ghost var mem := heap.mem;
      r := heap.AllocPage();
      if r.Some? {
        FreshPage(was, r.value);
      }
      SameTables(mem, heap.mem, nodes);
    }

    /** The fill loop of a block split. */
    method FillSplit(q: PageNo, block: Pte)
      requires heap.Valid() && heap.IsPage(q) && q in heap.mem && |heap.mem[q]| == 512
      modifies heap`mem
      ensures heap.Valid() && heap.Available() == old(heap.Available())
      ensures heap.mem == old(heap.mem)[q := SplitTable(block)]
    {
      var k := 0;
      while k < 512
        invariant 0 <= k <= 512
        invariant heap.Valid() && heap.Available() == old(heap.Available())
        invariant q in heap.mem && |heap.mem[q]| == 512 && heap.mem == old(heap.mem)[q := heap.mem[q]]
        invariant forall j: U9 :: j < k ==> heap.mem[q][j] == SplitDesc(block, j)
      {
        heap.Store(q, k, SplitDesc(block, k));
        k := k + 1;
      }
      assert heap.mem[q] == SplitTable(block);
    }

    /** The common part of both splits: fills `q`, breaks the slot of the block, makes it point to `q`, each
        followed by a flush of the TLB.  `log` has the memory after every step. */
    method InstallSplit(ghost l0: PageNo, ghost p: PageNo, t: PageNo, i: U9, q: PageNo, block: Pte)
      returns (ghost log: seq<(BreakBeforeMake.Pc, Mem)>)
      requires Valid() && Root(l0)
      requires L2Table(heap.mem, l0, p) == Some(t) && i == I2(p)
      requires block == At(heap.mem, t, i) && IsBlock(block)
      requires q !in nodes && heap.IsPage(q) && q in heap.mem && |heap.mem[q]| == 512
      modifies this, heap`mem
      ensures Valid() && Extends(old(nodes), nodes) && heap.Available() == old(heap.Available())
      ensures SameViews(old(heap.mem), heap.mem, old(nodes)) && KeepsL2(old(heap.mem), heap.mem, l0)
      ensures SameBut(old(heap.mem), heap.mem, old(nodes), t, i) && OthersSame(old(heap.mem), heap.mem, old(nodes), l0)
      ensures L2Entry(heap.mem, l0, p).IsTable() && L2Entry(heap.mem, l0, p).Page() == q
      ensures Blocks(heap.mem, l0) == Blocks(old(heap.mem), l0) - {p / 512}
      ensures var c := BreakBeforeMake.Split(old(nodes), old(heap.mem), l0, p, t, q); BreakBeforeMake.Legal(c) && log == BreakBeforeMake.Sequence(c)
    {
      hide View, Blocks, Shape, KeepsL2, BumpAllocator.Valid;
      ghost var before := heap.mem;
      WalkPlaces(before, nodes, l0, p);
      TablePage(before, nodes, t);
      FillSplit(q, block);
      log := [(BreakBeforeMake.Filled, heap.mem)];
      heap.Store(t, i, ZERO);
      log := log + [(BreakBeforeMake.Broken, heap.mem)];
      log := log + [(BreakBeforeMake.Flushed, heap.mem)];
      heap.Store(t, i, TableDesc(q));
      log := log + [(BreakBeforeMake.Made, heap.mem)];
      log := log + [(BreakBeforeMake.Done, heap.mem)];
      SplitKeepsViews(before, nodes, l0, p, q);
      LinkedByWrites(before, t, i, q, SplitTable(block));
      AllPagesWithChild(heap.outstanding, nodes, t, i, q);
      nodes := WithChild(nodes, t, i, q);
    }

    /** `split_2mb_block_at_l2`, given the slot and the block found there. */
    method SplitBlock(ghost l0: PageNo, ghost p: PageNo, t: PageNo, i: U9, block: Pte) returns (r: Outcome)
      requires Valid() && Root(l0)
      requires L2Table(heap.mem, l0, p) == Some(t) && i == I2(p)
      requires block == At(heap.mem, t, i) && IsBlock(block)
      modifies this, heap
      ensures Valid() && Extends(old(nodes), nodes)
      ensures r.Ok? <==> old(heap.Available()) > 0
      ensures SameViews(old(heap.mem), heap.mem, old(nodes))
      ensures OthersSame(old(heap.mem), heap.mem, old(nodes), l0)
      ensures r.Err? ==> heap.Available() == 0 && Blocks(heap.mem, l0) == Blocks(old(heap.mem), l0)
      ensures r.Ok? ==>
                && L2Entry(heap.mem, l0, p).IsTable()
                && heap.Available() == old(heap.Available()) - 1
                && Blocks(heap.mem, l0) == Blocks(old(heap.mem), l0) - {p / 512}
    {
      hide View, Blocks, Shape, BreakBeforeMake.Sequence, BreakBeforeMake.Legal;
      WalkPlaces(heap.mem, nodes, l0, p);
      ghost var mem0 := heap.mem;
      var page := NewPage();
      SameTables(mem0, heap.mem, nodes);
      if page.None? { return Err; }
      LastIn(heap.outstanding);
      heap.StorePage(page.value, EMPTY);
      SameTables(mem0, heap.mem, nodes);
      ghost var _ := InstallSplit(l0, p, t, i, page.value, block);
      r := Ok;
    }

    /** `split_block_if_needed`: afterwards `ipa` is not in a 2MB block. */
    method SplitIfNeeded(l0: PageNo, ipa: nat) returns (r: Outcome)
      requires Valid() && Root(l0)
      modifies this, heap
      ensures Valid() && Extends(old(nodes), nodes)
      ensures SameViews(old(heap.mem), heap.mem, old(nodes)) && OthersSame(old(heap.mem), heap.mem, old(nodes), l0)
      ensures r.Ok? <==> CanSplit(old(heap.Available()), Blocks(old(heap.mem), l0), PageOf(ipa))
      ensures SplitCost(old(heap.Available()), Blocks(old(heap.mem), l0), PageOf(ipa), heap.Available(), Blocks(heap.mem, l0))
    {
      var p := PageOf(ipa);
      LeafPlace(heap.mem, nodes, l0, p);
      var e0 := At(heap.mem, l0, I0(p));
      if !e0.IsTable() { return Ok; }
      var e1 := At(heap.mem, e0.Page(), I1(p));
      if !e1.valid || !e1.table { return Ok; }
      var t2 := e1.Page();
      var e2 := At(heap.mem, t2, I2(p));
      if e2.valid && !e2.table {
        r := SplitBlock(l0, p, t2, I2(p), e2);
        return;
      }
      return Ok;
    }

    /** Writes the L3 descriptor of `p`. */
    method StoreLeaf(ghost l0: PageNo, ghost p: PageNo, t: PageNo, i: U9, e: Pte)
      requires Valid() && Root(l0)
      requires L2Entry(heap.mem, l0, p).IsTable() && t == L2Entry(heap.mem, l0, p).Page() && i == I3(p)
      requires e.valid ==> e.table
      modifies heap`mem
      ensures Valid() && heap.Available() == old(heap.Available())
      ensures OthersSame(old(heap.mem), heap.mem, nodes, l0)
      ensures Translation(l0) == if e.valid then old(Translation(l0))[p := LeafOf(e, 3, p)] else old(Translation(l0)) - {p}
      ensures t in nodes && SameBut(old(heap.mem), heap.mem, nodes, t, i)
      ensures Blocks(heap.mem, l0) == Blocks(old(heap.mem), l0) && KeepsL2(old(heap.mem), heap.mem, l0)
      ensures NoL2(heap.mem, l0) == NoL2(old(heap.mem), l0) && NoL3(heap.mem, l0) == NoL3(old(heap.mem), l0)
    {
      hide View, Blocks, Shape, KeepsL2, NoL2, NoL3;
      LeafWrite(heap.mem, nodes, l0, p, e);
      TablePage(heap.mem, nodes, t);
      LeafWriteShape(heap.mem, nodes, t, i, e);
      heap.Store(t, i, e);
      LeafWriteGaps(old(heap.mem), heap.mem, nodes, l0, t, i);
    }

    /** `write_sw_bits`: sets the ownership of exactly one page. */
    method WriteSwBits(l0: PageNo, ipa: nat, bits: nat) returns (r: Outcome)
      requires Valid() && Root(l0)
      modifies this, heap
      ensures Valid() && Extends(old(nodes), nodes)
      ensures OthersSame(old(heap.mem), heap.mem, old(nodes), l0)
      ensures r.Ok? <==> PageOf(ipa) in old(Translation(l0)) && CanSplit(old(heap.Available()), Blocks(old(heap.mem), l0), PageOf(ipa))
      ensures Translation(l0) == var v, p := old(Translation(l0)), PageOf(ipa);
                                 if r.Ok? then v[p := v[p].(sw := bits % 4)] else v
      ensures SplitCost(old(heap.Available()), Blocks(old(heap.mem), l0), PageOf(ipa), heap.Available(), Blocks(heap.mem, l0))
    {
      hide View, Blocks, Shape;
      var p := PageOf(ipa);
      ghost var mem0 := heap.mem;
      var s := SplitIfNeeded(l0, ipa);
      if s.Err? { return Err; }
      LeafPlace(mem0, old(nodes), l0, p);
      LeafPlace(heap.mem, nodes, l0, p);
      var slot := LeafSlot(heap.mem, l0, p);
      if slot.None? { return Err; }
      var e := At(heap.mem, slot.value.table, slot.value.index);
      assert LeafOf(WithSw(e, bits), 3, p) == View(mem0, l0)[p].(sw := bits % 4);
      StoreLeaf(l0, p, slot.value.table, slot.value.index, WithSw(e, bits));
      r := Ok;
    }

    /** `set_s2ap`: sets the access permission of exactly one page. */
    method SetS2ap(l0: PageNo, ipa: nat, s2ap: nat) returns (r: Outcome)
      requires Valid() && Root(l0)
      modifies this, heap
      ensures Valid() && Extends(old(nodes), nodes)
      ensures OthersSame(old(heap.mem), heap.mem, old(nodes), l0)
      ensures r.Ok? <==> PageOf(ipa) in old(Translation(l0)) && CanSplit(old(heap.Available()), Blocks(old(heap.mem), l0), PageOf(ipa))
      ensures Translation(l0) == var v, p := old(Translation(l0)), PageOf(ipa);
                                 if r.Ok? then v[p := v[p].(s2ap := s2ap % 4)] else v
      ensures SplitCost(old(heap.Available()), Blocks(old(heap.mem), l0), PageOf(ipa), heap.Available(), Blocks(heap.mem, l0))
    {
      hide View, Blocks, Shape, BumpAllocator.Valid;
      var p := PageOf(ipa);
      ghost var mem0 := heap.mem;
      var s := SplitIfNeeded(l0, ipa);
      if s.Err? { return Err; }
      LeafPlace(mem0, old(nodes), l0, p);
      LeafPlace(heap.mem, nodes, l0, p);
      var slot := LeafSlot(heap.mem, l0, p);
      if slot.None? { return Err; }
      var e := At(heap.mem, slot.value.table, slot.value.index);
      assert LeafOf(WithS2ap(e, s2ap), 3, p) == View(mem0, l0)[p].(s2ap := s2ap % 4);
      StoreLeaf(l0, p, slot.value.table, slot.value.index, WithS2ap(e, s2ap));
      r := Ok;
    }

    /** Allocates a zeroed table and links it into an invalid slot; no translation changes. */
    method LinkNewTable(t: PageNo, i: U9) returns (r: Option<PageNo>)
      requires Valid() && t in nodes && 1 <= nodes[t].level <= 2 && !At(heap.mem, t, i).valid
      modifies this, heap
      ensures Valid() && Extends(old(nodes), nodes)
      ensures SameViews(old(heap.mem), heap.mem, old(nodes))
      ensures forall l | old(Root(l)) :: Blocks(heap.mem, l) == Blocks(old(heap.mem), l)
      ensures SameBut(old(heap.mem), heap.mem, old(nodes), t, i)
      ensures r.Some? <==> old(heap.Available()) > 0
      ensures r.None? ==> At(heap.mem, t, i) == old(At(heap.mem, t, i)) && heap.Available() == 0
      ensures r.Some? ==>
                && At(heap.mem, t, i) == TableDesc(r.value) && TableDesc(r.value).Page() == r.value
                && r.value in heap.mem && heap.mem[r.value] == EMPTY
                && heap.Available() == old(heap.Available()) - 1
                && nodes == WithChild(old(nodes), t, i, r.value)
    {
      hide View, Blocks, Shape;
      ghost var mem0 := heap.mem;
      r := NewPage();
      ghost var mem1 := heap.mem;
      SameTables(mem0, mem1, nodes);
      if r.None? { return; }
      LastIn(heap.outstanding);
      heap.StorePage(r.value, EMPTY);
      heap.Store(t, i, TableDesc(r.value));
      LinkedByWrites(mem1, t, i, r.value, EMPTY);
      LinkEmpty(mem1, nodes, t, i, r.value);
      AllPagesWithChild(heap.outstanding, nodes, t, i, r.value);
      nodes := WithChild(nodes, t, i, r.value);
    }

    /** The table that a slot of an L1 or L2 table points to, created if the slot is invalid. */
    method NextTable(t: PageNo, i: U9) returns (r: Option<PageNo>)
      requires Valid() && t in nodes && 1 <= nodes[t].level <= 2
      modifies this, heap
      ensures Valid() && Extends(old(nodes), nodes)
      ensures SameViews(old(heap.mem), heap.mem, old(nodes))
      ensures forall l | old(Root(l)) :: Blocks(heap.mem, l) == Blocks(old(heap.mem), l)
      ensures SameBut(old(heap.mem), heap.mem, old(nodes), t, i)
      ensures r.Some? <==> var e := old(At(heap.mem, t, i)); e.IsTable() || (!e.valid && old(heap.Available()) > 0)
      ensures heap.Available() == var n := old(heap.Available()); if old(At(heap.mem, t, i)).valid || n == 0 then n else n - 1
      ensures r.Some? ==> At(heap.mem, t, i).IsTable() && At(heap.mem, t, i).Page() == r.value
      ensures r.Some? && !old(At(heap.mem, t, i)).valid ==> forall j: U9 :: At(heap.mem, r.value, j) == ZERO
      ensures old(At(heap.mem, t, i)).valid ==> heap.mem == old(heap.mem) && nodes == old(nodes)
    {
      hide View, Blocks, Shape, BumpAllocator.Valid;
      var e := At(heap.mem, t, i);
      if !e.valid {
        r := LinkNewTable(t, i);
      } else if e.table {
        r := Some(e.Page());
      } else {
        r := None;
      }
    }

    /** The L3 table of `p`, created with the tables above it where they are missing. */
    method L3TableFor(l0: PageNo, p: PageNo) returns (r: Option<PageNo>)
      requires Valid() && Root(l0)
      modifies this, heap
      ensures Valid() && Extends(old(nodes), nodes)
      ensures SameViews(old(heap.mem), heap.mem, old(nodes))
      ensures Blocks(heap.mem, l0) == Blocks(old(heap.mem), l0) && OthersSame(old(heap.mem), heap.mem, old(nodes), l0)
      ensures r.Some? ==> heap.Available() == old(heap.Available()) - MissingTables(old(heap.mem), l0, p)
      ensures r.Some? ==> NoL2(heap.mem, l0) == NoL2(old(heap.mem), l0) - {GigOf(p)} && NoL3(heap.mem, l0) == NoL3(old(heap.mem), l0) - {BlockOf(p)}
      ensures r.Some? <==>
                && old(At(heap.mem, l0, I0(p))).IsTable() && !IsBlock(L2Entry(old(heap.mem), l0, p))
                && old(heap.Available()) >= MissingTables(old(heap.mem), l0, p)
      ensures r.Some? ==> L2Entry(heap.mem, l0, p).IsTable() && L2Entry(heap.mem, l0, p).Page() == r.value
      ensures forall i: U9 :: At(heap.mem, l0, i) == old(At(heap.mem, l0, i))
    {
      hide View, Blocks, Shape, BumpAllocator.Valid, NoL2, NoL3;
      WalkPlaces(heap.mem, nodes, l0, p);
      LeafPlace(heap.mem, nodes, l0, p);
      var e0 := At(heap.mem, l0, I0(p));
      if !e0.IsTable() { return None; }
      var l2 := NextTable(e0.Page(), I1(p));
      if l2.None? { return None; }
      assert L2Table(heap.mem, l0, p) == Some(l2.value);
      WalkPlaces(heap.mem, nodes, l0, p);
      ghost var e2 := At(heap.mem, l2.value, I2(p));
      assert MissingTables(old(heap.mem), l0, p) == (if old(L2Table(heap.mem, l0, p)).None? then 1 else 0) + (if e2.valid then 0 else 1);
      assert IsBlock(L2Entry(old(heap.mem), l0, p)) <==> IsBlock(e2);
      ghost var mem1, nodes1 := heap.mem, nodes;
      GapsOf(old(heap.mem), l0, p);
      if !old(At(heap.mem, At(heap.mem, l0, I0(p)).Page(), I1(p))).valid { LinkedL2(old(heap.mem), mem1, old(nodes), l0, p, e0.Page(), l2.value); }
      r := NextTable(l2.value, I2(p));
      assert L2Table(heap.mem, l0, p) == Some(l2.value);
      if r.Some? { LinkedL3(mem1, heap.mem, nodes1, l0, p, l2.value); }
    }

    /** `map_page`: maps one unmapped page to itself, or changes no translation. */
    method MapPage(l0: PageNo, ipa: nat, s2ap: nat, sw: nat) returns (r: Outcome)
      requires Valid() && Root(l0)
      modifies this, heap
      ensures Valid() && Extends(old(nodes), nodes)
      ensures OthersSame(old(heap.mem), heap.mem, old(nodes), l0)
      ensures r.Ok? <==>
                && PageOf(ipa) !in old(Translation(l0))
                && old(At(heap.mem, l0, I0(PageOf(ipa)))).IsTable()
                && old(heap.Available()) >= MissingTables(old(heap.mem), l0, PageOf(ipa))
      ensures Translation(l0) == var v, p := old(Translation(l0)), PageOf(ipa);
                                 if r.Ok? then v[p := IdentityLeaf(p, HighOf(ipa), s2ap, sw)] else v
      ensures Blocks(heap.mem, l0) == Blocks(old(heap.mem), l0) && (r.Ok? ==> PageOf(ipa) / 512 !in Blocks(heap.mem, l0))
      ensures r.Ok? ==> TablesCost(old(heap.mem), old(heap.Available()), l0, PageOf(ipa), heap.mem, heap.Available())
      ensures forall i: U9 :: At(heap.mem, l0, i) == old(At(heap.mem, l0, i))
    {
      hide View, Blocks, Shape, BumpAllocator.Valid, NoL2, NoL3, Or2;
      var p := PageOf(ipa);
      LeafPlace(heap.mem, nodes, l0, p);
      WalkPlaces(heap.mem, nodes, l0, p);
      var l3 := L3TableFor(l0, p);
      if l3.None? { return Err; }
      LeafPlace(heap.mem, nodes, l0, p);
      WalkPlaces(heap.mem, nodes, l0, p);
      if At(heap.mem, l3.value, I3(p)).valid { return Err; }
      StoreLeaf(l0, p, l3.value, I3(p), PageDesc(p, HighOf(ipa), s2ap, sw));
      r := Ok;
    }

    /** `unmap_page`: unmaps one page of an L3 table, or changes nothing. */
    method UnmapPage(l0: PageNo, ipa: nat) returns (r: Outcome)
      requires Valid() && Root(l0)
      modifies heap`mem
      ensures Valid() && heap.Available() == old(heap.Available())
      ensures OthersSame(old(heap.mem), heap.mem, nodes, l0)
      ensures r.Ok? <==> PageOf(ipa) in old(Translation(l0)) && PageOf(ipa) / 512 !in Blocks(old(heap.mem), l0)
      ensures Translation(l0) == if r.Ok? then old(Translation(l0)) - {PageOf(ipa)} else old(Translation(l0))
      ensures Blocks(heap.mem, l0) == Blocks(old(heap.mem), l0)
    {
      hide View, Blocks, Shape, BumpAllocator.Valid;
      var p := PageOf(ipa);
      LeafPlace(heap.mem, nodes, l0, p);
      var e0 := At(heap.mem, l0, I0(p));
      if !e0.IsTable() { return Err; }
      var e1 := At(heap.mem, e0.Page(), I1(p));
      if !e1.IsTable() { return Err; }
      var e2 := At(heap.mem, e1.Page(), I2(p));
      if !e2.IsTable() { return Err; }
      if !At(heap.mem, e2.Page(), I3(p)).valid { return Err; }
      StoreLeaf(l0, p, e2.Page(), I3(p), ZERO);
      r := Ok;
    }
  }

  /** An identity mapping of normal memory; address bits above 47 end up in the attributes. */
  function IdentityLeaf(p: PageNo, high: nat, s2ap: nat, sw: nat): Leaf
  {
    Leaf(p, NORMAL_ATTR, NORMAL_SHAF, high % 128, high / 512 % 128, s2ap % 4, Or2(sw % 4, high / 128 % 4))
  }

  /** Below 2^48 the leaf is the one that is meant. */
  lemma BelowLimit(ipa: nat, s2ap: nat, sw: nat)
    requires ipa < PAGES * 4096
    ensures IdentityLeaf(PageOf(ipa), HighOf(ipa), s2ap, sw) == Leaf(PageOf(ipa), NORMAL_ATTR, NORMAL_SHAF, 0, 0, s2ap % 4, sw % 4)
    ensures PageOf(ipa) == ipa / 4096
  {
    hide Or2;
    Or2Zero(sw % 4);
    assert ipa / 4096 < PAGES;
  }

  /** What the tables missing above `p` cost. */
  ghost predicate TablesCost(mem: Mem, available: nat, l0: PageNo, p: PageNo, mem': Mem, available': nat)
  {
    && available' == available - MissingTables(mem, l0, p)
    && NoL2(mem', l0) == NoL2(mem, l0) - {GigOf(p)} && NoL3(mem', l0) == NoL3(mem, l0) - {BlockOf(p)}
  }

  /** A split of the block of `p`, if it is a block, finds a page. */
  ghost predicate CanSplit(available: nat, blocks: set<U27>, p: PageNo)
  {
    p / 512 in blocks ==> available > 0
  }

  /** What splitting the block of `p` costs: a page of the heap if it was a block, else nothing. */
  ghost predicate SplitCost(available: nat, blocks: set<U27>, p: PageNo, available': nat, blocks': set<U27>)
  {
    && blocks' == (if CanSplit(available, blocks, p) then blocks - {p / 512} else blocks)
    && available' == (if available > 0 && p / 512 in blocks then available - 1 else available)
  }

  /** Every table page is an allocated page. */
  ghost predicate AllPages(outstanding: seq<Region>, nodes: Nodes)
  {
    forall t <- nodes :: PageRegion(t) in outstanding
  }

  lemma AllPagesWithChild(outstanding: seq<Region>, nodes: Nodes, t: PageNo, i: U9, q: PageNo)
    requires AllPages(outstanding, nodes) && t in nodes && PageRegion(q) in outstanding
    ensures AllPages(outstanding, WithChild(nodes, t, i, q))
  {
  }

  lemma TablePage(mem: Mem, nodes: Nodes, t: PageNo)
    requires Shape(mem, nodes) && t in nodes
    ensures t in mem && |mem[t]| == 512
  {
  }

  lemma LastIn(rs: seq<Region>)
    ensures rs != [] ==> rs[|rs| - 1] in rs
  {
  }

  lemma FreshPage(rs: seq<Region>, p: PageNo)
    requires PairwiseDisjoint(rs + [PageRegion(p)])
    ensures PageRegion(p) !in rs
  {
    forall k | 0 <= k < |rs| ensures rs[k] != PageRegion(p) {
      assert Disjoint((rs + [PageRegion(p)])[k], (rs + [PageRegion(p)])[|rs|]);
    }
  }
}
