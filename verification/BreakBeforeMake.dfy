/** The break-before-make sequence of a block split (src/ffa/stage2_walker.rs:356-408) against a
TLB that may cache any valid leaf, and drop any entry, between any two steps. */
module BreakBeforeMake {
  import opened Descriptor
  import opened PageTable
  import opened TableEdits

  /** A cached leaf of the current VMID: a 2MB block or a 4KB page. */
  datatype Cached = Block(b: U27, e: Pte) | Page(p: PageNo, e: Pte)

  /** The split of the block of page `p`, whose L2 slot is `i` of table `t`, into table `q`. */
  datatype Split = Split(nodes: Nodes, before: Mem, l0: PageNo, p: PageNo, t: PageNo, q: PageNo)

  ghost predicate Legal(c: Split)
  {
    && Shape(c.before, c.nodes) && IsRoot(c.nodes, c.l0) && c.q !in c.nodes
    && L2Table(c.before, c.l0, c.p) == Some(c.t) && c.t in c.nodes && IsBlock(L2Entry(c.before, c.l0, c.p))
  }

  /** Where the hypervisor is in the sequence. */
  datatype Pc = Start | Filled | Broken | Flushed | Made | Done

  datatype State = State(pc: Pc, tlb: set<Cached>)

  /** Memory at each point of the sequence. */
  ghost function MemAt(c: Split, pc: Pc): Mem
    requires Legal(c)
  {
    var i, block := I2(c.p), L2Entry(c.before, c.l0, c.p);
    match pc
    case Start => c.before
    case Filled => c.before[c.q := SplitTable(block)]
    case Broken => Write(c.before[c.q := SplitTable(block)], c.t, i, ZERO)
    case Flushed => Write(c.before[c.q := SplitTable(block)], c.t, i, ZERO)
    case Made => Linked(c.before, c.t, i, c.q, SplitTable(block))
    case Done => Linked(c.before, c.t, i, c.q, SplitTable(block))
  }

  /** The points of the sequence in order, each with the memory there. */
  ghost function Sequence(c: Split): seq<(Pc, Mem)>
    requires Legal(c)
  {
    [(Filled, MemAt(c, Filled)), (Broken, MemAt(c, Broken)), (Flushed, MemAt(c, Flushed)), (Made, MemAt(c, Made)), (Done, MemAt(c, Done))]
  }

  /** The leaf that a walk for `p` finds, as the TLB would hold it. */
  ghost predicate Cacheable(mem: Mem, l0: PageNo, p: PageNo, x: Cached)
  {
    match LeafSlot(mem, l0, p)
    case None => false
    case Some(s) =>
      var e := At(mem, s.table, s.index);
      (s.level == 2 && x == Block(p / 512, e)) || (s.level == 3 && x == Page(p, e))
  }

  /** One step: of the hypervisor, or of the TLB.  `flush` says whether the hypervisor flushes the TLB
      between breaking and making. */
  ghost predicate Next(c: Split, flush: bool, s: State, s': State)
    requires Legal(c)
  {
    || (s.pc == Start && s' == s.(pc := Filled))
    || (s.pc == Filled && s' == s.(pc := Broken))
    || (s.pc == Broken && s' == State(Flushed, if flush then {} else s.tlb))
    || (s.pc == Flushed && s' == s.(pc := Made))
    || (s.pc == Made && s' == State(Done, {}))
    || (s'.pc == s.pc && s'.tlb <= s.tlb)
    || (s'.pc == s.pc && exists p, x :: Cacheable(MemAt(c, s.pc), c.l0, p, x) && s'.tlb == s.tlb + {x})
  }

  ghost predicate Init(c: Split, s: State)
  {
    s.pc == Start && forall x <- s.tlb :: exists p :: Cacheable(c.before, c.l0, p, x)
  }

  ghost predicate Run(c: Split, flush: bool, run: seq<State>)
    requires Legal(c)
  {
    |run| > 0 && Init(c, run[0]) && forall k :: 0 <= k < |run| - 1 ==> Next(c, flush, run[k], run[k + 1])
  }

  /** No 2MB entry and 4KB entry for one IPA. */
  ghost predicate NoConflict(tlb: set<Cached>)
  {
    forall x <- tlb, y <- tlb :: x.Block? && y.Page? ==> y.p / 512 != x.b
  }

  /** A cached leaf translates as the tables did before the split. */
  ghost predicate Agrees(c: Split, x: Cached)
  {
    match x
    case Block(b, e) => forall p: PageNo :: p / 512 == b ==> Lookup(c.before, c.l0, p) == Some(LeafOf(e, 2, p))
    case Page(p, e) => Lookup(c.before, c.l0, p) == Some(LeafOf(e, 3, p))
  }

  /** The blocks that a cached entry may be of: the broken one is out once it is flushed. */
  ghost function BlocksAt(c: Split, pc: Pc): set<U27>
  {
    if pc.Start? || pc.Filled? || pc.Broken? then Blocks(c.before, c.l0) else Blocks(c.before, c.l0) - {c.p / 512}
  }

  ghost predicate Fits(c: Split, pc: Pc, x: Cached)
  {
    && Agrees(c, x)
    && match x
       case Block(b, e) => b in BlocksAt(c, pc)
       case Page(p, e) => p / 512 !in BlocksAt(c, pc)
  }

  /** What the walk finds while the slot is zero: nothing in the block, the same elsewhere. */
  lemma BrokenWalk(c: Split, p: PageNo)
    requires Legal(c)
    ensures var mem := MemAt(c, Broken);
            if p / 512 == c.p / 512 then LeafSlot(mem, c.l0, p).None?
            else Lookup(mem, c.l0, p) == Lookup(c.before, c.l0, p) && L2Entry(mem, c.l0, p) == L2Entry(c.before, c.l0, p)
  {
    var mem := MemAt(c, Broken);
    WalkPlaces(c.before, c.nodes, c.l0, c.p);
    assert SameBut(c.before, mem, c.nodes, c.t, I2(c.p));
    Indices(p);
    Indices(c.p);
    L2TableFrame(c.before, mem, c.nodes, c.t, I2(c.p), c.l0, p);
    if p / 512 == c.p / 512 {
      SamePlaceSameEntry(c.before, c.nodes, c.t, c.l0, c.p, p);
    } else {
      WalkFrame(c.before, mem, c.nodes, c.t, I2(c.p), c.l0, p);
    }
  }

  /** At every point a walk finds what it found before the split or nothing, and finds it in a
      block exactly for the blocks that may be cached as such. */
  lemma WalkAt(c: Split, pc: Pc, p: PageNo)
    requires Legal(c)
    ensures var mem := MemAt(c, pc);
            LeafSlot(mem, c.l0, p).Some? ==>
              && Lookup(mem, c.l0, p) == Lookup(c.before, c.l0, p)
              && (IsBlock(L2Entry(mem, c.l0, p)) ==> p / 512 in BlocksAt(c, pc))
              && (L2Entry(mem, c.l0, p).IsTable() ==> p / 512 !in BlocksAt(c, pc))
  {
    hide Lookup, L2Entry, LeafSlot, Blocks, Shape, Write, SplitTable, Linked;
    InBlocks(c.before, c.l0, p);
    BlockHere(c);
    match pc
    case Start =>
    case Filled => FilledWalk(c, p);
    case Broken => BrokenWalk(c, p);
    case Flushed => BrokenWalk(c, p);
    case Made => MadeWalk(c, p);
    case Done => MadeWalk(c, p);
  }

  lemma BlockHere(c: Split)
    requires Legal(c)
    ensures c.p / 512 in Blocks(c.before, c.l0)
  {
    InBlocks(c.before, c.l0, c.p);
  }

  lemma InBlocks(mem: Mem, l0: PageNo, p: PageNo)
    ensures p / 512 in Blocks(mem, l0) <==> IsBlock(L2Entry(mem, l0, p))
  {
    hide L2Entry;
    L2EntryOfBlock(mem, l0, p);
  }

  lemma FilledWalk(c: Split, p: PageNo)
    requires Legal(c)
    ensures var mem := MemAt(c, Filled); Lookup(mem, c.l0, p) == Lookup(c.before, c.l0, p) && L2Entry(mem, c.l0, p) == L2Entry(c.before, c.l0, p)
  {
    hide Lookup, L2Entry, SplitTable, Blocks;
    SameTables(c.before, MemAt(c, Filled), c.nodes);
  }

  lemma MadeWalk(c: Split, p: PageNo)
    requires Legal(c)
    ensures var mem := MemAt(c, Made);
            && Lookup(mem, c.l0, p) == Lookup(c.before, c.l0, p)
            && L2Entry(mem, c.l0, p) == if p / 512 == c.p / 512 then TableDesc(c.q) else L2Entry(c.before, c.l0, p)
  {
    WalkPlaces(c.before, c.nodes, c.l0, c.p);
    assert MemAt(c, Made) == SplitMem(c.before, c.l0, c.p, c.q);
    assert SameBut(c.before, MemAt(c, Made), c.nodes, c.t, I2(c.p));
    SplitAt(c.before, c.nodes, c.l0, c.p, c.q, c.l0, p);
  }

  /** What a cacheable leaf is, in terms of the L2 descriptor. */
  lemma CacheableIs(mem: Mem, l0: PageNo, p: PageNo, x: Cached)
    requires Cacheable(mem, l0, p, x)
    ensures LeafSlot(mem, l0, p).Some?
    ensures x.Block? ==> IsBlock(L2Entry(mem, l0, p)) && x == Block(p / 512, L2Entry(mem, l0, p))
    ensures x.Page? ==> L2Entry(mem, l0, p).IsTable() && x.p == p && Lookup(mem, l0, p) == Some(LeafOf(x.e, 3, p))
  {
  }

  lemma CacheableFits(c: Split, pc: Pc, p: PageNo, x: Cached)
    requires Legal(c) && Cacheable(MemAt(c, pc), c.l0, p, x)
    ensures Fits(c, pc, x)
  {
    var mem := MemAt(c, pc);
    CacheableIs(mem, c.l0, p, x);
    WalkAt(c, pc, p);
    if x.Block? {
      forall p': PageNo | p' / 512 == x.b ensures Lookup(c.before, c.l0, p') == Some(LeafOf(x.e, 2, p')) {
        BlockLookup(mem, c.l0, p, p');
        WalkAt(c, pc, p');
      }
    }
  }

  lemma BlockLookup(mem: Mem, l0: PageNo, p: PageNo, p': PageNo)
    requires IsBlock(L2Entry(mem, l0, p)) && p' / 512 == p / 512
    ensures Lookup(mem, l0, p') == Some(LeafOf(L2Entry(mem, l0, p), 2, p')) && LeafSlot(mem, l0, p').Some?
  {
    L2EntryOfBlock(mem, l0, p);
    L2EntryOfBlock(mem, l0, p');
    LookupViaL2(mem, l0, p', L2Table(mem, l0, p').value);
  }

  lemma StepFits(c: Split, s: State, s': State)
    requires Legal(c) && Next(c, true, s, s') && forall x <- s.tlb :: Fits(c, s.pc, x)
    ensures forall x <- s'.tlb :: Fits(c, s'.pc, x)
  {
    hide Lookup, LeafSlot, Blocks;
    if s'.pc == s.pc && !(s'.tlb <= s.tlb) {
      var p, x :| Cacheable(MemAt(c, s.pc), c.l0, p, x) && s'.tlb == s.tlb + {x};
      CacheableFits(c, s.pc, p, x);
    }
  }

  /** At every step of every interleaving, no IPA is cached both as part of a 2MB block and as a
      4KB page, and every cached leaf translates as the tables did before the split. */
  lemma {:induction false} SplitIsSafe(c: Split, run: seq<State>, k: nat)
    requires Legal(c) && Run(c, true, run) && k < |run|
    ensures NoConflict(run[k].tlb)
    ensures forall x <- run[k].tlb :: Agrees(c, x)
    ensures forall x <- run[k].tlb :: Fits(c, run[k].pc, x)
  {
    hide Lookup, LeafSlot, Blocks, Cacheable;
    if k == 0 {
      forall x <- run[0].tlb ensures Fits(c, Start, x) {
        var p :| Cacheable(c.before, c.l0, p, x);
        CacheableFits(c, Start, p, x);
      }
    } else {
      SplitIsSafe(c, run, k - 1);
      StepFits(c, run[k - 1], run[k]);
    }
  }

  /** The block is cached at the start and one of its pages at the end. */
  ghost function StaleRun(stale: Cached, page: Cached): seq<State>
  {
    [State(Start, {stale}), State(Filled, {stale}), State(Broken, {stale}), State(Flushed, {stale}), State(Made, {stale}), State(Made, {stale, page})]
  }

  /** Without the flush between breaking and making, every split has a run after which one IPA is
      cached both ways. */
  lemma FlushIsNeeded(c: Split)
    requires Legal(c)
    ensures exists run: seq<State>, k :: Run(c, false, run) && 0 <= k < |run| && !NoConflict(run[k].tlb)
  {
    hide LeafSlot, Lookup, L2Entry, MemAt, SplitTable;
    var stale, page := BothCacheable(c);
    var run := StaleRun(stale, page);
    assert run[5].tlb == run[4].tlb + {page};
    assert !NoConflict(run[5].tlb) by { assert stale in run[5].tlb && page in run[5].tlb; }
    assert Init(c, run[0]) by { StartIsBefore(c); }
    assert Run(c, false, run);
  }

  lemma StartIsBefore(c: Split)
    requires Legal(c)
    ensures MemAt(c, Start) == c.before
  {
  }

  lemma BothCacheable(c: Split) returns (stale: Cached, page: Cached)
    requires Legal(c)
    ensures Cacheable(MemAt(c, Start), c.l0, c.p, stale) && Cacheable(MemAt(c, Made), c.l0, c.p, page)
    ensures stale.Block? && page.Page? && page.p / 512 == stale.b
  {
    hide Or9, Lookup;
    WalkPlaces(c.before, c.nodes, c.l0, c.p);
    MadeWalk(c, c.p);
    var block := L2Entry(c.before, c.l0, c.p);
    stale, page := Block(c.p / 512, block), Page(c.p, SplitDesc(block, I3(c.p)));
    assert At(MemAt(c, Made), c.q, I3(c.p)) == SplitDesc(block, I3(c.p));
    assert TableDesc(c.q).Page() == c.q;
  }
}
