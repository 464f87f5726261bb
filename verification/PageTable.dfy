/** The four-level Stage-2 table as a value: what a walk finds, the tree shape that every
operation keeps, and the frame property of a single slot write. */
module PageTable {
  import opened Descriptor

  /** Physical memory holding the tables: page number to 512 words. */
  type Mem = map<PageNo, seq<Pte>>

  function At(mem: Mem, t: int, i: int): Pte
  {
    if t in mem && 0 <= i < |mem[t]| then mem[t][i] else ZERO
  }

  function Write(mem: Mem, t: PageNo, i: U9, e: Pte): Mem
    requires t in mem && |mem[t]| == 512
  {
    mem[t := mem[t][i := e]]
  }

  /** A zeroed page. */
  const EMPTY: seq<Pte> := seq(512, _ => ZERO)

  // Table indices of the page number of an IPA: bits 47:39, 38:30, 29:21 and 20:12.
  function I0(p: PageNo): U9 { p / 0x800_0000 }
  function I1(p: PageNo): U9 { p / 0x4_0000 % 512 }
  function I2(p: PageNo): U9 { p / 512 % 512 }
  function I3(p: PageNo): U9 { p % 512 }

  datatype Slot = Slot(table: PageNo, index: U9, level: nat)

  /** `walk_to_leaf_ptr`: the slot of the leaf descriptor of a page. */
  function LeafSlot(mem: Mem, l0: PageNo, p: PageNo): Option<Slot>
  {
    var e0 := At(mem, l0, I0(p));
    if !e0.IsTable() then None else
    var e1 := At(mem, e0.Page(), I1(p));
    if !e1.valid then None
    else if !e1.table then Some(Slot(e0.Page(), I1(p), 1)) else
    var e2 := At(mem, e1.Page(), I2(p));
    if !e2.valid then None
    else if !e2.table then Some(Slot(e1.Page(), I2(p), 2)) else
    var e3 := At(mem, e2.Page(), I3(p));
    if !e3.valid then None
    else Some(Slot(e2.Page(), I3(p), 3))
  }

  /** What the hardware makes of a leaf. */
  datatype Leaf = Leaf(out: int, memAttr: U4, shAf: U4, up: U7, top: U7, s2ap: U2, sw: U2)

  function LeafOf(e: Pte, level: nat, p: PageNo): Leaf
  {
    var out := if level == 3 then e.Page()
               else if level == 2 then e.frame * 512 + p % 512
               else e.frame / 512 * 0x4_0000 + p % 0x4_0000;
    Leaf(out, e.memAttr, e.shAf, e.up, e.top, e.s2ap, e.sw)
  }

  /** The translation of one page. */
  function Lookup(mem: Mem, l0: PageNo, p: PageNo): Option<Leaf>
  {
    match LeafSlot(mem, l0, p)
    case None => None
    case Some(s) => Some(LeafOf(At(mem, s.table, s.index), s.level, p))
  }

  /** The whole translation of a root table. */
  ghost function View(mem: Mem, l0: PageNo): map<PageNo, Leaf>
  {
    map p: PageNo | Lookup(mem, l0, p).Some? :: Lookup(mem, l0, p).value
  }

  // ---- tree shape ----

  /** The place of a table page: its root, its level, and the IPA bits that select it. */
  datatype Node = Node(root: PageNo, level: nat, prefix: nat)

  type Nodes = map<PageNo, Node>

  ghost predicate SlotOk(nodes: Nodes, n: Node, i: U9, e: Pte)
  {
    && (e.IsTable() && n.level < 3 ==>
          e.Page() in nodes && nodes[e.Page()] == Node(n.root, n.level + 1, n.prefix * 512 + i))
    && (e.valid && n.level == 1 ==> e.table)
    && (e.valid && n.level == 2 && !e.table ==> e.low == 0)
    && (e.valid && n.level == 3 ==> e.table)
  }

  /** Every table page has one place in one tree, so no page is reachable twice; there is
      no 1GB block; a 2MB block is 2MB aligned. */
  ghost predicate Shape(mem: Mem, nodes: Nodes)
  {
    && (forall t <- nodes :: t in mem && |mem[t]| == 512 && nodes[t].level <= 3)
    && (forall t <- nodes, i: U9 :: SlotOk(nodes, nodes[t], i, At(mem, t, i)))
  }

  ghost predicate IsRoot(nodes: Nodes, l0: PageNo) { l0 in nodes && nodes[l0] == Node(l0, 0, 0) }

  ghost predicate Extends(nodes: Nodes, more: Nodes)
  {
    forall t <- nodes :: t in more && more[t] == nodes[t]
  }

  /** Page `p` of root `l0` is translated through slot `i` of the table at node `n`. */
  ghost predicate Covers(n: Node, i: U9, l0: PageNo, p: PageNo)
  {
    && l0 == n.root
    && (n.level == 0 ==> I0(p) == i)
    && (n.level == 1 ==> p / 0x4_0000 == n.prefix * 512 + i)
    && (n.level == 2 ==> p / 512 == n.prefix * 512 + i)
    && (n.level == 3 ==> p == n.prefix * 512 + i)
  }

  lemma Indices(p: PageNo)
    ensures p / 0x4_0000 == I0(p) * 512 + I1(p)
    ensures p / 512 == (I0(p) * 512 + I1(p)) * 512 + I2(p)
    ensures p == p / 512 * 512 + I3(p)
  {
  }

  /** A walk meets only tables whose place is given by the leading bits of the page. */
  lemma WalkPlaces(mem: Mem, nodes: Nodes, l0: PageNo, p: PageNo)
    requires Shape(mem, nodes) && IsRoot(nodes, l0)
    ensures At(mem, l0, I0(p)).IsTable() ==>
              var t1 := At(mem, l0, I0(p)).Page();
              && t1 in nodes && nodes[t1] == Node(l0, 1, I0(p))
              && (At(mem, t1, I1(p)).IsTable() ==>
                    var t2 := At(mem, t1, I1(p)).Page();
                    && t2 in nodes && nodes[t2] == Node(l0, 2, p / 0x4_0000)
                    && (At(mem, t2, I2(p)).IsTable() ==>
                          var t3 := At(mem, t2, I2(p)).Page();
                          t3 in nodes && nodes[t3] == Node(l0, 3, p / 512)))
  {
    Indices(p);
    if At(mem, l0, I0(p)).IsTable() {
      assert SlotOk(nodes, nodes[l0], I0(p), At(mem, l0, I0(p)));
      var t1 := At(mem, l0, I0(p)).Page();
      if At(mem, t1, I1(p)).IsTable() {
        assert SlotOk(nodes, nodes[t1], I1(p), At(mem, t1, I1(p)));
        var t2 := At(mem, t1, I1(p)).Page();
        assert SlotOk(nodes, nodes[t2], I2(p), At(mem, t2, I2(p)));
      }
    }
  }

  /** Memory outside one slot of one table is the same. */
  ghost predicate SameBut(mem: Mem, mem': Mem, nodes: Nodes, t: PageNo, i: U9)
  {
    forall t' <- nodes, j: U9 :: t' != t || j != i ==> At(mem', t', j) == At(mem, t', j)
  }

  /** Writing one slot changes the translation only of the pages that slot covers. */
  lemma WalkFrame(mem: Mem, mem': Mem, nodes: Nodes, t: PageNo, i: U9, l0: PageNo, p: PageNo)
    requires Shape(mem, nodes) && IsRoot(nodes, l0) && t in nodes
    requires SameBut(mem, mem', nodes, t, i)
    requires !Covers(nodes[t], i, l0, p)
    ensures LeafSlot(mem', l0, p) == LeafSlot(mem, l0, p)
    ensures Lookup(mem', l0, p) == Lookup(mem, l0, p)
  {
    WalkPlaces(mem, nodes, l0, p);
    Indices(p);
  }
}
