/** The edits that the walker and the mapper make to a table, as values: each keeps the tree
shape and has a simple effect on the translation. */
module TableEdits {
  import opened Descriptor
  import opened PageTable

  /** The L2 table that a walk for `p` reaches. */
  function L2Table(mem: Mem, l0: PageNo, p: PageNo): Option<PageNo>
  {
    var e0 := At(mem, l0, I0(p));
    if !e0.IsTable() then None else
    var e1 := At(mem, e0.Page(), I1(p));
    if e1.IsTable() then Some(e1.Page()) else None
  }

  function L2Entry(mem: Mem, l0: PageNo, p: PageNo): Pte
  {
    match L2Table(mem, l0, p) case None => ZERO case Some(t2) => At(mem, t2, I2(p))
  }

  /** The 2MB blocks (page number / 512) that are not split. */
  ghost function Blocks(mem: Mem, l0: PageNo): set<U27>
  {
    set b: U27 | L2Entry(mem, l0, b * 512).valid && !L2Entry(mem, l0, b * 512).table
  }

  /** The blocks of some pages. */
  ghost function BlocksOf(pages: set<PageNo>): set<U27> { set p <- pages :: BlockOf(p) }

  function BlockOf(p: PageNo): U27 { p / 512 }

  /** All roots but one translate alike and have the same blocks. */
  ghost predicate OthersSame(mem: Mem, mem': Mem, nodes: Nodes, l0: PageNo)
  {
    forall r | IsRoot(nodes, r) && r != l0 :: View(mem', r) == View(mem, r) && Blocks(mem', r) == Blocks(mem, r)
  }

  /** L2 descriptors that are valid stay valid. */
  ghost predicate KeepsL2(mem: Mem, mem': Mem, l0: PageNo)
  {
    forall p: PageNo :: L2Entry(mem, l0, p).valid ==> L2Entry(mem', l0, p).valid
  }

  lemma L2EntryOfBlock(mem: Mem, l0: PageNo, p: PageNo)
    ensures L2Table(mem, l0, p / 512 * 512) == L2Table(mem, l0, p)
    ensures L2Entry(mem, l0, p / 512 * 512) == L2Entry(mem, l0, p)
  {
    Indices(p);
    Indices(p / 512 * 512);
  }

  lemma SamePlaceSameEntry(mem: Mem, nodes: Nodes, t: PageNo, l0: PageNo, p: PageNo, p': PageNo)
    requires L2Table(mem, l0, p) == Some(t)
    requires p' / 0x4_0000 == p / 0x4_0000
    ensures L2Table(mem, l0, p') == Some(t)
  {
    Indices(p);
    Indices(p');
  }

  lemma L2TableFrame(mem: Mem, mem': Mem, nodes: Nodes, t: PageNo, i: U9, l0: PageNo, p: PageNo)
    requires Shape(mem, nodes) && IsRoot(nodes, l0) && t in nodes
    requires SameBut(mem, mem', nodes, t, i)
    requires nodes[t].level <= 1 ==> !Covers(nodes[t], i, l0, p)
    ensures L2Table(mem', l0, p) == L2Table(mem, l0, p)
    ensures nodes[t].level == 3 || !Covers(nodes[t], i, l0, p) ==> L2Entry(mem', l0, p) == L2Entry(mem, l0, p)
  {
    WalkPlaces(mem, nodes, l0, p);
    Indices(p);
  }

  predicate IsBlock(e: Pte) { e.valid && !e.table }

  /** Without 1GB blocks, a mapped page is either in a 2MB block or in an L3 table. */
  lemma LeafPlace(mem: Mem, nodes: Nodes, l0: PageNo, p: PageNo)
    requires Shape(mem, nodes) && IsRoot(nodes, l0)
    ensures p / 512 in Blocks(mem, l0) <==> IsBlock(L2Entry(mem, l0, p))
    ensures p in View(mem, l0) <==> LeafSlot(mem, l0, p).Some?
    ensures IsBlock(L2Entry(mem, l0, p)) ==> p in View(mem, l0)
    ensures p in View(mem, l0) && !IsBlock(L2Entry(mem, l0, p)) ==>
              && L2Entry(mem, l0, p).IsTable()
              && LeafSlot(mem, l0, p) == Some(Slot(L2Entry(mem, l0, p).Page(), I3(p), 3))
              && View(mem, l0)[p] == LeafOf(At(mem, L2Entry(mem, l0, p).Page(), I3(p)), 3, p)
              && At(mem, L2Entry(mem, l0, p).Page(), I3(p)).IsTable()
  {
    WalkPlaces(mem, nodes, l0, p);
    L2EntryOfBlock(mem, l0, p);
    var e0 := At(mem, l0, I0(p));
    if e0.IsTable() {
      assert SlotOk(nodes, nodes[e0.Page()], I1(p), At(mem, e0.Page(), I1(p)));
    }
  }

  /** How many tables are missing on the way to the L3 descriptor of `p`, below its L1 table. */
  ghost function MissingTables(mem: Mem, l0: PageNo, p: PageNo): nat
  {
    if L2Table(mem, l0, p).None? then 2 else if !L2Entry(mem, l0, p).valid then 1 else 0
  }

  // ---- missing tables ----

  /** The gigabytes without an L2 table, and the 2MB stretches without an L2 descriptor. */
  ghost function NoL2(mem: Mem, l0: PageNo): set<U18> { set g: U18 | L2Table(mem, l0, g * 0x4_0000).None? }

  ghost function NoL3(mem: Mem, l0: PageNo): set<U27> { set b: U27 | !L2Entry(mem, l0, b * 512).valid }

  function GigOf(p: PageNo): U18 { p / 0x4_0000 }

  lemma GapsOf(mem: Mem, l0: PageNo, p: PageNo)
    ensures GigOf(p) in NoL2(mem, l0) <==> L2Table(mem, l0, p).None?
    ensures BlockOf(p) in NoL3(mem, l0) <==> !L2Entry(mem, l0, p).valid
  {
    hide I0, I1, I2, L2Entry;
    SameGig(p);
    L2EntryOfBlock(mem, l0, p);
  }

  lemma SameGig(p: PageNo)
    ensures I0(p / 0x4_0000 * 0x4_0000) == I0(p) && I1(p / 0x4_0000 * 0x4_0000) == I1(p)
  {
    var g, r := p / 0x4_0000, p % 0x4_0000;
    var g1, g0 := g / 512, g % 512;
    assert g * 0x4_0000 == g1 * 0x800_0000 + g0 * 0x4_0000;
    assert p == g1 * 0x800_0000 + (g0 * 0x4_0000 + r);
    assert p / 0x800_0000 == g1 && g * 0x4_0000 / 0x800_0000 == g1;
    assert g * 0x4_0000 / 0x4_0000 == g;
  }

  /** Pages that agree on what is missing agree on all gaps. */
  lemma SameGaps(mem: Mem, mem': Mem, l0: PageNo, p: PageNo)
    requires forall p': PageNo :: L2Table(mem', l0, p').None? <==> L2Table(mem, l0, p').None? && GigOf(p') != GigOf(p)
    requires forall p': PageNo :: L2Entry(mem', l0, p').valid <==> L2Entry(mem, l0, p').valid
    ensures NoL2(mem', l0) == NoL2(mem, l0) - {GigOf(p)} && NoL3(mem', l0) == NoL3(mem, l0)
  {
    hide L2Table, L2Entry;
  }

  lemma SameGaps3(mem: Mem, mem': Mem, l0: PageNo, p: PageNo)
    requires forall p': PageNo :: L2Table(mem', l0, p').None? <==> L2Table(mem, l0, p').None?
    requires forall p': PageNo :: !L2Entry(mem', l0, p').valid <==> !L2Entry(mem, l0, p').valid && BlockOf(p') != BlockOf(p)
    ensures NoL2(mem', l0) == NoL2(mem, l0) && NoL3(mem', l0) == NoL3(mem, l0) - {BlockOf(p)}
  {
    hide L2Table, L2Entry;
  }

  /** Linking an empty L2 table closes one gap; linking an L3 table, one of the other kind. */
  lemma LinkedL2(mem: Mem, mem': Mem, nodes: Nodes, l0: PageNo, p: PageNo, t: PageNo, q: PageNo)
    requires Shape(mem, nodes) && IsRoot(nodes, l0) && At(mem, l0, I0(p)).IsTable() && t == At(mem, l0, I0(p)).Page()
    requires !At(mem, t, I1(p)).valid && t in nodes && SameBut(mem, mem', nodes, t, I1(p))
    requires At(mem', t, I1(p)).IsTable() && At(mem', t, I1(p)).Page() == q && forall j: U9 :: At(mem', q, j) == ZERO
    ensures NoL2(mem', l0) == NoL2(mem, l0) - {GigOf(p)} && NoL3(mem', l0) == NoL3(mem, l0)
  {
    WalkPlaces(mem, nodes, l0, p);
    Indices(p);
    forall p': PageNo
      ensures L2Table(mem', l0, p').None? <==> L2Table(mem, l0, p').None? && GigOf(p') != GigOf(p)
      ensures L2Entry(mem', l0, p').valid <==> L2Entry(mem, l0, p').valid
    {
      Indices(p');
      if GigOf(p') != GigOf(p) { L2TableFrame(mem, mem', nodes, t, I1(p), l0, p'); }
    }
    SameGaps(mem, mem', l0, p);
  }

  lemma LinkedL3(mem: Mem, mem': Mem, nodes: Nodes, l0: PageNo, p: PageNo, t: PageNo)
    requires Shape(mem, nodes) && IsRoot(nodes, l0) && L2Table(mem, l0, p) == Some(t)
    requires t in nodes && SameBut(mem, mem', nodes, t, I2(p)) && At(mem', t, I2(p)).valid
    ensures NoL2(mem', l0) == NoL2(mem, l0) && NoL3(mem', l0) == NoL3(mem, l0) - {BlockOf(p)}
  {
    WalkPlaces(mem, nodes, l0, p);
    Indices(p);
    forall p': PageNo
      ensures L2Table(mem', l0, p').None? <==> L2Table(mem, l0, p').None?
      ensures !L2Entry(mem', l0, p').valid <==> !L2Entry(mem, l0, p').valid && BlockOf(p') != BlockOf(p)
    {
      Indices(p');
      L2TableFrame(mem, mem', nodes, t, I2(p), l0, p');
      if BlockOf(p') == BlockOf(p) { SamePlaceSameEntry(mem, nodes, t, l0, p, p'); }
    }
    SameGaps3(mem, mem', l0, p);
  }

  /** Memory that agrees on all table pages translates alike. */
  lemma SameTables(mem: Mem, mem': Mem, nodes: Nodes)
    requires Shape(mem, nodes)
    requires forall t <- nodes :: t in mem' && mem'[t] == mem[t]
    ensures Shape(mem', nodes) && SameViews(mem, mem', nodes)
    ensures forall r, p: PageNo | IsRoot(nodes, r) :: Lookup(mem', r, p) == Lookup(mem, r, p)
    ensures forall r, p: PageNo | IsRoot(nodes, r) ::
              L2Table(mem', r, p) == L2Table(mem, r, p) && L2Entry(mem', r, p) == L2Entry(mem, r, p)
    ensures forall r | IsRoot(nodes, r) :: Blocks(mem', r) == Blocks(mem, r)
  {
    forall t <- nodes, i: U9 ensures SlotOk(nodes, nodes[t], i, At(mem', t, i)) {
      assert SlotOk(nodes, nodes[t], i, At(mem, t, i));
    }
    forall r, p: PageNo | IsRoot(nodes, r)
      ensures Lookup(mem', r, p) == Lookup(mem, r, p)
      ensures L2Table(mem', r, p) == L2Table(mem, r, p) && L2Entry(mem', r, p) == L2Entry(mem, r, p)
    {
      WalkPlaces(mem, nodes, r, p);
    }
    SameLookups(mem, mem', nodes);
    forall r | IsRoot(nodes, r) ensures Blocks(mem', r) == Blocks(mem, r) { SameBlocks(mem, mem', r); }
  }

  // ---- writing a leaf of an L3 table ----

  lemma LeafWriteShape(mem: Mem, nodes: Nodes, t: PageNo, i: U9, e: Pte)
    requires Shape(mem, nodes) && t in nodes && nodes[t].level == 3
    requires e.valid ==> e.table
    ensures Shape(Write(mem, t, i, e), nodes)
    ensures SameBut(mem, Write(mem, t, i, e), nodes, t, i)
  {
    var mem' := Write(mem, t, i, e);
    forall t' <- nodes, j: U9 ensures SlotOk(nodes, nodes[t'], j, At(mem', t', j)) {
      assert SlotOk(nodes, nodes[t'], j, At(mem, t', j));
    }
  }

  lemma LeafWriteAt(mem: Mem, nodes: Nodes, l0: PageNo, p: PageNo, e: Pte, r: PageNo, p': PageNo)
    requires Shape(mem, nodes) && IsRoot(nodes, l0) && IsRoot(nodes, r)
    requires L2Entry(mem, l0, p).IsTable()
    ensures var t := L2Entry(mem, l0, p).Page();
            && t in nodes && nodes[t] == Node(l0, 3, p / 512)
            && var mem' := Write(mem, t, I3(p), e);
            && L2Entry(mem', r, p') == L2Entry(mem, r, p')
            && Lookup(mem', r, p') == (if r != l0 || p' != p then Lookup(mem, r, p')
                                       else if e.valid then Some(LeafOf(e, 3, p)) else None)
  {
    WalkPlaces(mem, nodes, l0, p);
    Indices(p);
    Indices(p');
    var t := L2Entry(mem, l0, p).Page();
    var mem' := Write(mem, t, I3(p), e);
    L2TableFrame(mem, mem', nodes, t, I3(p), r, p');
    if r != l0 || p' != p { WalkFrame(mem, mem', nodes, t, I3(p), r, p'); }
  }

  /** The translation after one L3 descriptor is written: one page changes, in one root. */
  lemma LeafWriteGaps(mem: Mem, mem': Mem, nodes: Nodes, l0: PageNo, t: PageNo, i: U9)
    requires Shape(mem, nodes) && IsRoot(nodes, l0) && t in nodes && nodes[t].level == 3 && SameBut(mem, mem', nodes, t, i)
    ensures NoL2(mem', l0) == NoL2(mem, l0) && NoL3(mem', l0) == NoL3(mem, l0)
  {
    forall p: PageNo ensures L2Table(mem', l0, p) == L2Table(mem, l0, p) && L2Entry(mem', l0, p) == L2Entry(mem, l0, p) {
      L2TableFrame(mem, mem', nodes, t, i, l0, p);
    }
    AllSameGaps(mem, mem', l0);
  }

  lemma AllSameGaps(mem: Mem, mem': Mem, l0: PageNo)
    requires forall p: PageNo :: L2Table(mem', l0, p) == L2Table(mem, l0, p) && L2Entry(mem', l0, p) == L2Entry(mem, l0, p)
    ensures NoL2(mem', l0) == NoL2(mem, l0) && NoL3(mem', l0) == NoL3(mem, l0)
  {
    hide L2Table, L2Entry;
  }

  lemma LeafWrite(mem: Mem, nodes: Nodes, l0: PageNo, p: PageNo, e: Pte)
    requires Shape(mem, nodes) && IsRoot(nodes, l0)
    requires L2Entry(mem, l0, p).IsTable()
    requires e.valid ==> e.table
    ensures var t := L2Entry(mem, l0, p).Page();
            && t in nodes && nodes[t] == Node(l0, 3, p / 512)
            && var mem' := Write(mem, t, I3(p), e);
            && Shape(mem', nodes)
            && View(mem', l0) == (if e.valid then View(mem, l0)[p := LeafOf(e, 3, p)] else View(mem, l0) - {p})
            && Blocks(mem', l0) == Blocks(mem, l0) && KeepsL2(mem, mem', l0)
            && OthersSame(mem, mem', nodes, l0)
  {
    LeafWriteAt(mem, nodes, l0, p, e, l0, p);
    var t := L2Entry(mem, l0, p).Page();
    var mem' := Write(mem, t, I3(p), e);
    LeafWriteShape(mem, nodes, t, I3(p), e);
    forall r, p': PageNo | IsRoot(nodes, r)
      ensures L2Entry(mem', r, p') == L2Entry(mem, r, p')
      ensures Lookup(mem', r, p') == (if r != l0 || p' != p then Lookup(mem, r, p')
                                      else if e.valid then Some(LeafOf(e, 3, p)) else None)
    {
      LeafWriteAt(mem, nodes, l0, p, e, r, p');
    }
    OneLookup(mem, mem', l0, p, if e.valid then Some(LeafOf(e, 3, p)) else None);
    forall r | IsRoot(nodes, r) && r != l0 ensures View(mem', r) == View(mem, r) {
      SameLookup(mem, mem', r);
    }
    forall r | IsRoot(nodes, r) ensures Blocks(mem', r) == Blocks(mem, r) {
      SameBlocks(mem, mem', r);
    }
  }

  lemma OneLookup(mem: Mem, mem': Mem, l0: PageNo, p: PageNo, leaf: Option<Leaf>)
    requires forall p': PageNo :: Lookup(mem', l0, p') == if p' == p then leaf else Lookup(mem, l0, p')
    ensures View(mem', l0) == if leaf.Some? then View(mem, l0)[p := leaf.value] else View(mem, l0) - {p}
  {
    hide Lookup;
  }

  lemma SameLookup(mem: Mem, mem': Mem, r: PageNo)
    requires forall p: PageNo :: Lookup(mem', r, p) == Lookup(mem, r, p)
    ensures View(mem', r) == View(mem, r)
  {
    hide Lookup;
  }

  lemma SameBlocks(mem: Mem, mem': Mem, r: PageNo)
    requires forall p: PageNo :: L2Entry(mem', r, p) == L2Entry(mem, r, p)
    ensures Blocks(mem', r) == Blocks(mem, r)
  {
    hide L2Entry;
  }

  // ---- linking a new table ----

  ghost function Linked(mem: Mem, t: PageNo, i: U9, q: PageNo, content: seq<Pte>): Mem
    requires t in mem && |mem[t]| == 512 && q != t
  {
    Write(mem[q := content], t, i, TableDesc(q))
  }

  ghost function WithChild(nodes: Nodes, t: PageNo, i: U9, q: PageNo): Nodes
    requires t in nodes
  {
    nodes[q := Node(nodes[t].root, nodes[t].level + 1, nodes[t].prefix * 512 + i)]
  }

  /** Zeroing or filling the new page first, and breaking the slot before making it, come to the same. */
  lemma LinkedByWrites(mem: Mem, t: PageNo, i: U9, q: PageNo, content: seq<Pte>)
    requires t in mem && |mem[t]| == 512 && q != t
    ensures var m := mem[q := EMPTY];
            && Write(Write(m[q := content], t, i, ZERO), t, i, TableDesc(q)) == Linked(mem, t, i, q, content)
            && Write(Write(mem[q := content], t, i, ZERO), t, i, TableDesc(q)) == Linked(mem, t, i, q, content)
            && Write(m, t, i, TableDesc(q)) == Linked(mem, t, i, q, EMPTY)
  {
    var m := mem[q := EMPTY];
    assert m[q := content] == mem[q := content];
    assert mem[t][i := ZERO][i := TableDesc(q)] == mem[t][i := TableDesc(q)];
    assert Write(Write(m[q := content], t, i, ZERO), t, i, TableDesc(q)) == Linked(mem, t, i, q, content);
  }

  lemma LinkShape(mem: Mem, nodes: Nodes, t: PageNo, i: U9, q: PageNo, content: seq<Pte>)
    requires Shape(mem, nodes) && t in nodes && nodes[t].level < 3
    requires q !in nodes && |content| == 512
    requires forall j: U9 :: SlotOk(nodes, WithChild(nodes, t, i, q)[q], j, content[j])
    ensures Shape(Linked(mem, t, i, q, content), WithChild(nodes, t, i, q))
    ensures Extends(nodes, WithChild(nodes, t, i, q))
    ensures SameBut(mem, Linked(mem, t, i, q, content), nodes, t, i)
    ensures At(Linked(mem, t, i, q, content), t, i) == TableDesc(q)
    ensures TableDesc(q).Page() == q
    ensures forall j: U9 :: At(Linked(mem, t, i, q, content), q, j) == content[j]
  {
    var mem', nodes' := Linked(mem, t, i, q, content), WithChild(nodes, t, i, q);
    forall t' <- nodes', j: U9
      ensures SlotOk(nodes', nodes'[t'], j, At(mem', t', j))
    {
      if t' in nodes { assert SlotOk(nodes, nodes[t'], j, At(mem, t', j)); }
    }
  }

  /** Two memories translate every page of every root alike. */
  ghost predicate SameViews(mem: Mem, mem': Mem, nodes: Nodes)
  {
    forall r | IsRoot(nodes, r) :: View(mem', r) == View(mem, r)
  }

  lemma SameLookups(mem: Mem, mem': Mem, nodes: Nodes)
    requires forall r, p: PageNo | IsRoot(nodes, r) :: Lookup(mem', r, p) == Lookup(mem, r, p)
    ensures SameViews(mem, mem', nodes)
  {
    hide Lookup;
  }

  /** An empty table in the place of an invalid descriptor translates nothing. */
  lemma LinkEmpty(mem: Mem, nodes: Nodes, t: PageNo, i: U9, q: PageNo)
    requires Shape(mem, nodes) && t in nodes && 1 <= nodes[t].level <= 2
    requires q !in nodes && !At(mem, t, i).valid
    ensures var mem' := Linked(mem, t, i, q, EMPTY);
            && Shape(mem', WithChild(nodes, t, i, q))
            && Extends(nodes, WithChild(nodes, t, i, q))
            && SameBut(mem, mem', nodes, t, i) && At(mem', t, i) == TableDesc(q) && mem'[q] == EMPTY
            && TableDesc(q).Page() == q
            && SameViews(mem, mem', nodes)
            && forall r | IsRoot(nodes, r) :: Blocks(mem', r) == Blocks(mem, r)
  {
    LinkShape(mem, nodes, t, i, q, EMPTY);
    var mem' := Linked(mem, t, i, q, EMPTY);
    forall r, p: PageNo | IsRoot(nodes, r)
      ensures Lookup(mem', r, p) == Lookup(mem, r, p)
      ensures L2Entry(mem', r, p).valid && !L2Entry(mem', r, p).table
              <==> L2Entry(mem, r, p).valid && !L2Entry(mem, r, p).table
    {
      WalkPlaces(mem, nodes, r, p);
      Indices(p);
      if Covers(nodes[t], i, r, p) {
        assert Lookup(mem', r, p) == Lookup(mem, r, p);
      } else {
        WalkFrame(mem, mem', nodes, t, i, r, p);
        L2TableFrame(mem, mem', nodes, t, i, r, p);
      }
    }
    SameLookups(mem, mem', nodes);
  }

  // ---- splitting a block ----

  ghost function SplitTable(block: Pte): seq<Pte> { seq(512, i requires 0 <= i < 512 => SplitDesc(block, i)) }

  /** Splitting a 2MB block preserves its meaning exactly when the block is 2MB aligned. */
  lemma SplitPreservesMeaning(block: Pte)
    requires block.valid && !block.table
    ensures (forall p: PageNo :: LeafOf(SplitDesc(block, I3(p)), 3, p) == LeafOf(block, 2, p)) <==> block.low == 0
  {
    hide Or9;
    if block.low == 0 {
      forall p: PageNo ensures LeafOf(SplitDesc(block, I3(p)), 3, p) == LeafOf(block, 2, p) {
        Or9Zero(I3(p));
      }
    } else {
      Or9Zero(block.low);
      assert LeafOf(SplitDesc(block, I3(0)), 3, 0) != LeafOf(block, 2, 0);
    }
  }

  ghost function SplitMem(mem: Mem, l0: PageNo, p: PageNo, q: PageNo): Mem
    requires var t := L2Table(mem, l0, p); t.Some? && t.value in mem && |mem[t.value]| == 512 && q != t.value
  {
    var t := L2Table(mem, l0, p).value;
    Linked(mem, t, I2(p), q, SplitTable(At(mem, t, I2(p))))
  }

  lemma SplitAt(mem: Mem, nodes: Nodes, l0: PageNo, p: PageNo, q: PageNo, r: PageNo, p': PageNo)
    requires Shape(mem, nodes) && IsRoot(nodes, l0) && IsRoot(nodes, r) && q !in nodes
    requires L2Entry(mem, l0, p).valid && !L2Entry(mem, l0, p).table
    requires var t := L2Table(mem, l0, p).value;
             && t in nodes && nodes[t] == Node(l0, 2, p / 0x4_0000)
             && SameBut(mem, SplitMem(mem, l0, p, q), nodes, t, I2(p))
    ensures var mem' := SplitMem(mem, l0, p, q);
            && Lookup(mem', r, p') == Lookup(mem, r, p')
            && L2Entry(mem', r, p') == (if r == l0 && p' / 512 == p / 512 then TableDesc(q) else L2Entry(mem, r, p'))
  {
    hide Or9;
    var t := L2Table(mem, l0, p).value;
    var block := At(mem, t, I2(p));
    var mem' := SplitMem(mem, l0, p, q);
    assert SlotOk(nodes, nodes[t], I2(p), block);
    Indices(p);
    Indices(p');
    L2TableFrame(mem, mem', nodes, t, I2(p), r, p');
    if r == l0 && p' / 512 == p / 512 {
      SamePlaceSameEntry(mem, nodes, t, l0, p, p');
      SplitPreservesMeaning(block);
      assert LeafOf(SplitDesc(block, I3(p')), 3, p') == LeafOf(block, 2, p');
      LookupViaL2(mem, l0, p', t);
      LookupViaL2(mem', l0, p', t);
    } else {
      WalkFrame(mem, mem', nodes, t, I2(p), r, p');
    }
  }

  lemma LookupViaL2(mem: Mem, l0: PageNo, p: PageNo, t: PageNo)
    requires L2Table(mem, l0, p) == Some(t)
    ensures var e2 := At(mem, t, I2(p));
            Lookup(mem, l0, p) == if !e2.valid then None
                                  else if !e2.table then Some(LeafOf(e2, 2, p))
                                  else if At(mem, e2.Page(), I3(p)).valid then Some(LeafOf(At(mem, e2.Page(), I3(p)), 3, p))
                                  else None
  {
  }

  /** Replacing a block by the table of its 512 pages changes no translation of any root. */
  lemma SplitKeepsViews(mem: Mem, nodes: Nodes, l0: PageNo, p: PageNo, q: PageNo)
    requires Shape(mem, nodes) && IsRoot(nodes, l0) && q !in nodes
    requires L2Entry(mem, l0, p).valid && !L2Entry(mem, l0, p).table
    ensures var t := L2Table(mem, l0, p).value;
            && t in nodes && nodes[t] == Node(l0, 2, p / 0x4_0000)
            && var mem' := SplitMem(mem, l0, p, q);
            && Shape(mem', WithChild(nodes, t, I2(p), q))
            && Extends(nodes, WithChild(nodes, t, I2(p), q))
            && SameViews(mem, mem', nodes) && SameBut(mem, mem', nodes, t, I2(p))
            && L2Entry(mem', l0, p) == TableDesc(q) && TableDesc(q).Page() == q
            && Blocks(mem', l0) == Blocks(mem, l0) - {p / 512} && KeepsL2(mem, mem', l0)
            && OthersSame(mem, mem', nodes, l0)
  {
    WalkPlaces(mem, nodes, l0, p);
    var t := L2Table(mem, l0, p).value;
    var block := At(mem, t, I2(p));
    LinkShape(mem, nodes, t, I2(p), q, SplitTable(block));
    var mem' := SplitMem(mem, l0, p, q);
    forall r, p': PageNo | IsRoot(nodes, r)
      ensures Lookup(mem', r, p') == Lookup(mem, r, p')
      ensures L2Entry(mem', r, p') == if r == l0 && p' / 512 == p / 512 then TableDesc(q) else L2Entry(mem, r, p')
    {
      SplitAt(mem, nodes, l0, p, q, r, p');
    }
    SameLookups(mem, mem', nodes);
    OneBlockLess(mem, mem', l0, p / 512);
    forall r | IsRoot(nodes, r) && r != l0 ensures Blocks(mem', r) == Blocks(mem, r) { SameBlocks(mem, mem', r); }
  }

  lemma OneBlockLess(mem: Mem, mem': Mem, l0: PageNo, b: U27)
    requires forall p: PageNo :: if p / 512 == b then L2Entry(mem', l0, p).table
                                 else L2Entry(mem', l0, p) == L2Entry(mem, l0, p)
    ensures Blocks(mem', l0) == Blocks(mem, l0) - {b}
  {
    hide L2Entry;
  }

  // ---- writing a block ----

  /** The identity leaf of a page in a block with the given attribute. */
  function BlockLeaf(p: PageNo, attr: MemoryAttribute): Leaf { LeafOf(BlockDesc(p, 0, attr), 2, p) }

  /** A translation with the 512 pages of block `c` mapped by a block descriptor. */
  ghost function SetBlock(v: map<PageNo, Leaf>, c: U27, e: Pte): map<PageNo, Leaf>
  {
    map p: PageNo | p in v || p / 512 == c :: if p / 512 == c then LeafOf(e, 2, p) else v[p]
  }

  lemma BlockWriteShape(mem: Mem, nodes: Nodes, t: PageNo, i: U9, e: Pte)
    requires Shape(mem, nodes) && t in nodes && nodes[t].level == 2
    requires IsBlock(e) && e.low == 0
    ensures Shape(Write(mem, t, i, e), nodes)
    ensures SameBut(mem, Write(mem, t, i, e), nodes, t, i)
  {
    var mem' := Write(mem, t, i, e);
    forall t' <- nodes, j: U9 ensures SlotOk(nodes, nodes[t'], j, At(mem', t', j)) {
      assert SlotOk(nodes, nodes[t'], j, At(mem, t', j));
    }
  }

  lemma BlockWriteAt(mem: Mem, nodes: Nodes, l0: PageNo, b: U27, e: Pte, t: PageNo, r: PageNo, p: PageNo)
    requires Shape(mem, nodes) && IsRoot(nodes, l0) && IsRoot(nodes, r) && IsBlock(e) && e.low == 0
    requires L2Table(mem, l0, b * 512) == Some(t)
    requires t in nodes && nodes[t] == Node(l0, 2, b / 512)
    ensures var mem' := Write(mem, t, I2(b * 512), e);
            && Lookup(mem', r, p) == (if r == l0 && p / 512 == b then Some(LeafOf(e, 2, p)) else Lookup(mem, r, p))
            && L2Entry(mem', r, p) == (if r == l0 && p / 512 == b then e else L2Entry(mem, r, p))
  {
    var p0 := b * 512;
    var mem' := Write(mem, t, I2(p0), e);
    BlockWriteShape(mem, nodes, t, I2(p0), e);
    Indices(p0);
    Indices(p);
    L2TableFrame(mem, mem', nodes, t, I2(p0), r, p);
    if r == l0 && p / 512 == b {
      SamePlaceSameEntry(mem, nodes, t, l0, p0, p);
      LookupViaL2(mem', l0, p, t);
    } else {
      WalkFrame(mem, mem', nodes, t, I2(p0), r, p);
    }
  }

  /** Writing a block descriptor maps exactly the 512 pages of one block of one root. */
  lemma BlockWrite(mem: Mem, nodes: Nodes, l0: PageNo, b: U27, e: Pte)
    requires Shape(mem, nodes) && IsRoot(nodes, l0) && IsBlock(e) && e.low == 0
    requires L2Table(mem, l0, b * 512).Some?
    ensures var t := L2Table(mem, l0, b * 512).value;
            && t in nodes && nodes[t] == Node(l0, 2, b / 512)
            && var mem' := Write(mem, t, I2(b * 512), e);
            && Shape(mem', nodes)
            && View(mem', l0) == SetBlock(View(mem, l0), b, e)
            && Blocks(mem', l0) == Blocks(mem, l0) + {b}
            && OthersSame(mem, mem', nodes, l0)
  {
    WalkPlaces(mem, nodes, l0, b * 512);
    var t := L2Table(mem, l0, b * 512).value;
    var mem' := Write(mem, t, I2(b * 512), e);
    BlockWriteShape(mem, nodes, t, I2(b * 512), e);
    forall r, p: PageNo | IsRoot(nodes, r)
      ensures Lookup(mem', r, p) == (if r == l0 && p / 512 == b then Some(LeafOf(e, 2, p)) else Lookup(mem, r, p))
      ensures L2Entry(mem', r, p) == (if r == l0 && p / 512 == b then e else L2Entry(mem, r, p))
    {
      BlockWriteAt(mem, nodes, l0, b, e, t, r, p);
    }
    OneBlockMore(mem, mem', l0, b, e);
    forall r | IsRoot(nodes, r) && r != l0 ensures View(mem', r) == View(mem, r) && Blocks(mem', r) == Blocks(mem, r) {
      SameLookup(mem, mem', r);
      SameBlocks(mem, mem', r);
    }
  }

  lemma OneBlockMore(mem: Mem, mem': Mem, l0: PageNo, b: U27, e: Pte)
    requires IsBlock(e)
    requires forall p: PageNo :: Lookup(mem', l0, p) == if p / 512 == b then Some(LeafOf(e, 2, p)) else Lookup(mem, l0, p)
    requires forall p: PageNo :: L2Entry(mem', l0, p) == if p / 512 == b then e else L2Entry(mem, l0, p)
    ensures View(mem', l0) == SetBlock(View(mem, l0), b, e)
    ensures Blocks(mem', l0) == Blocks(mem, l0) + {b}
  {
    hide Lookup, L2Entry, LeafOf;
  }

  // ---- a new root ----

  ghost function RootMem(mem: Mem, a: PageNo, b: PageNo, zero: seq<Pte>): Mem
    requires |zero| == 512 && a != b
  {
    Write(mem[a := zero][b := zero], a, 0, TableDesc(b))
  }

  ghost function RootNodes(nodes: Nodes, a: PageNo, b: PageNo): Nodes
  {
    nodes[a := Node(a, 0, 0)][b := Node(a, 1, 0)]
  }

  /** Two fresh zeroed pages, the first pointing to the second, are an empty translation. */
  lemma NewRoot(mem: Mem, nodes: Nodes, a: PageNo, b: PageNo)
    requires Shape(mem, nodes) && a !in nodes && b !in nodes && a != b
    ensures Shape(RootMem(mem, a, b, EMPTY), RootNodes(nodes, a, b))
    ensures IsRoot(RootNodes(nodes, a, b), a) && Extends(nodes, RootNodes(nodes, a, b))
    ensures At(RootMem(mem, a, b, EMPTY), a, 0) == TableDesc(b)
    ensures forall i: U9 :: At(RootMem(mem, a, b, EMPTY), b, i) == ZERO
    ensures SameViews(mem, RootMem(mem, a, b, EMPTY), nodes)
    ensures View(RootMem(mem, a, b, EMPTY), a) == map[] && Blocks(RootMem(mem, a, b, EMPTY), a) == {}
  {
    var mem' := RootMem(mem, a, b, EMPTY);
    var nodes' := RootNodes(nodes, a, b);
    forall t <- nodes', i: U9 ensures SlotOk(nodes', nodes'[t], i, At(mem', t, i)) {
      if t in nodes { assert SlotOk(nodes, nodes[t], i, At(mem, t, i)); }
    }
    SameTables(mem, mem', nodes);
    NewRootIsEmpty(mem', a, b);
  }

  lemma NewRootIsEmpty(mem: Mem, a: PageNo, b: PageNo)
    requires forall i: U9 :: At(mem, a, i) == if i == 0 then TableDesc(b) else ZERO
    requires forall i: U9 :: At(mem, b, i) == ZERO
    ensures View(mem, a) == map[] && Blocks(mem, a) == {}
  {
    forall p: PageNo ensures Lookup(mem, a, p).None? && L2Entry(mem, a, p) == ZERO {
      assert At(mem, b, I1(p)) == ZERO;
    }
  }
}
