/** The FF-A proxy's memory handlers (src/ffa/proxy.rs) over the Stage-2 tables, with the share
records of the stub SPMC (src/ffa/stub_spmc.rs).  Each handler is proved to make one step of
`ShareProtocol`. */
module Proxy {
  import opened Descriptor
  import opened PageTable
  import opened TableEdits
  import opened Allocator
  import opened Sizes
  import opened Walker
  import opened ShareProtocol

  // ---- page lists, range by range ----

  ghost function RangeSet(r: Range, n: nat): set<PageNo>
    requires InRange(r) && n <= r.count
  {
    set p <- RangeList(r, n)
  }

  lemma RangeStep(r: Range, k: nat)
    requires InRange(r) && k < r.count
    ensures RangeSet(r, k + 1) == RangeSet(r, k) + {PageAt(r, k)}
    ensures RangeList(r, k + 1) == RangeList(r, k) + [PageAt(r, k)]
    ensures r.base + k * 4096 < PAGES * 4096 && PageOf(r.base + k * 4096) == PageAt(r, k)
    ensures PageAt(r, k) in RangeSet(r, r.count)
  {
    assert RangeList(r, k + 1)[k] == PageAt(r, k);
    assert RangeList(r, r.count)[k] == PageAt(r, k);
    assert RangeList(r, k + 1) == RangeList(r, k) + [PageAt(r, k)];
  }

  lemma PagesStep(ranges: seq<Range>, i: nat)
    requires RangesOk(ranges) && i < |ranges|
    ensures InRange(ranges[i])
    ensures PageList(ranges[..i + 1]) == PageList(ranges[..i]) + RangeList(ranges[i], ranges[i].count)
    ensures Pages(ranges[..i + 1]) == Pages(ranges[..i]) + RangeSet(ranges[i], ranges[i].count)
    ensures Pages(ranges[..i + 1]) <= Pages(ranges)
  {
    assert ranges[i] in ranges;
    assert ranges[..i + 1][..i] == ranges[..i];
    PagesGrow(ranges, i + 1);
  }

  lemma {:induction false} PagesGrow(ranges: seq<Range>, n: nat)
    requires RangesOk(ranges) && n <= |ranges|
    ensures Pages(ranges[..n]) <= Pages(ranges)
  {
    if n < |ranges| {
      assert ranges[..|ranges| - 1][..n] == ranges[..n];
      PagesGrow(ranges[..|ranges| - 1], n);
    } else {
      assert ranges[..n] == ranges;
    }
  }

  lemma SetPagesTwice(v: Translation, a: set<PageNo>, b: set<PageNo>, sw: U2, s2ap: U2)
    ensures SetPages(SetPages(v, a, sw, s2ap), b, sw, s2ap) == SetPages(v, a + b, sw, s2ap)
    ensures SetPages(v, {}, sw, s2ap) == v
  {
  }

  lemma SetOnePage(v: Translation, p: PageNo, sw: U2, s2ap: U2)
    ensures p in v ==> SetPages(v, {p}, sw, s2ap) == v[p := v[p].(sw := sw)][p := v[p].(sw := sw).(s2ap := s2ap)]
    ensures p !in v ==> SetPages(v, {p}, sw, s2ap) == v
  {
  }

  /** Pages of an unsplit block are owned and read-write: both are only ever changed page by page. */
  ghost predicate BlocksOwned(v: Translation, blocks: set<U27>)
  {
    forall p <- v :: p / 512 in blocks ==> v[p].sw == OWNED && v[p].s2ap == S2AP_RW
  }

  /** The page is SharedOwned, can be read if it was shared and not if it was lent, and cannot be written. */
  ghost predicate SharedAs(v: Translation, p: PageNo, isLend: bool)
  {
    p in v && v[p].sw == SHARED_OWNED && (Readable(v[p]) <==> !isLend) && !Writable(v[p])
  }

  /** The pages that lie in no unsplit block. */
  ghost function Outside(ps: set<PageNo>, blocks: set<U27>): set<PageNo> { set p <- ps | BlockOf(p) !in blocks }

  /** Splitting the blocks of `ps` as far as the heap goes: a page of heap per block, and no block
      of `ps` is left unless the heap is empty. */
  ghost predicate Paid(available: nat, blocks: set<U27>, ps: set<PageNo>, available': nat, blocks': set<U27>)
  {
    && blocks' <= blocks && blocks - blocks' <= BlocksOf(ps)
    && |blocks| - |blocks'| == available - available'
    && (available' == 0 || BlocksOf(ps) !! blocks')
  }

  /** The records that a VM holds lie in no unsplit block of it. */
  ghost predicate HeldSplit(records: seq<Record>, vm: nat, blocks: set<U27>)
  {
    forall r <- records :: Held(r, vm) && RangesOk(r.ranges) ==> BlocksOf(Pages(r.ranges)) !! blocks
  }

  ghost function GigsOf(ps: set<PageNo>): set<U18> { set p <- ps :: GigOf(p) }

  /** The tables that mapping `ps` needs, where the gigabytes `g` lack an L2 and the blocks `b` an L3 table. */
  ghost function Need(g: set<U18>, b: set<U27>, ps: set<PageNo>): nat { |g * GigsOf(ps)| + |b * BlocksOf(ps)| }

  /** These tables were built. */
  ghost predicate Built(a: nat, g: set<U18>, b: set<U27>, ps: set<PageNo>, a': nat, g': set<U18>, b': set<U27>)
  {
    g' == g - GigsOf(ps) && b' == b - BlocksOf(ps) && a' == a - Need(g, b, ps)
  }

  class FfaProxy {
    const tables: Tables
    /** PER_VM_VTTBR, as page numbers. */
    const l0: seq<PageNo>
    const records: array<Record>
    var nextHandle: nat

    ghost predicate Valid()
      reads this, records, tables, tables.heap
    {
      && tables.Valid()
      && |l0| == MAX_VMS && l0[0] != l0[1] && (forall vm: nat :: vm < MAX_VMS ==> tables.Root(l0[vm]))
      && records.Length == MAX_SHARES && SysOk(Abs())
    }

    /** The state of the protocol. */
    ghost function Abs(): (s: Sys)
      reads this, records, tables.heap
      ensures |s.views| == MAX_VMS
    {
      Sys(if |l0| == MAX_VMS then [tables.Translation(l0[0]), tables.Translation(l0[1])] else [map[], map[]], records[..], nextHandle)
    }

    /** The records at boot. */
    constructor (tables: Tables, l0: seq<PageNo>)
      requires tables.Valid() && |l0| == MAX_VMS && l0[0] != l0[1] && forall vm: nat :: vm < MAX_VMS ==> tables.Root(l0[vm])
      ensures Valid() && this.tables == tables && this.l0 == l0 && fresh(records)
      ensures (forall r <- Abs().records :: !r.active) && nextHandle == 1
    {
      this.tables, this.l0, this.nextHandle := tables, l0, 1;
      records := new Record[MAX_SHARES](_ => Record(0, 0, 0, [], false, false, false));
    }

    /** The unsplit blocks of a VM. */
    ghost function Blk(vm: int): set<U27>
      reads tables.heap
    {
      if 0 <= vm < |l0| then Blocks(tables.heap.mem, l0[vm]) else {}
    }

    /** Every unsplit block of both VMs is owned, and no record that a VM holds lies in one of its. */
    ghost predicate Fine()
      reads this, records, tables, tables.heap
    {
      && Valid() && BlocksOwned(Abs().views[0], Blk(0)) && BlocksOwned(Abs().views[1], Blk(1))
      && HeldSplit(records[..], 0, Blk(0)) && HeldSplit(records[..], 1, Blk(1))
    }

    /** The gigabytes without an L2 table and the blocks without an L3 table. */
    ghost function Gap2(vm: int): set<U18>
      reads tables.heap
    {
      if 0 <= vm < |l0| then NoL2(tables.heap.mem, l0[vm]) else {}
    }

    ghost function Gap3(vm: int): set<U27>
      reads tables.heap
    {
      if 0 <= vm < |l0| then NoL3(tables.heap.mem, l0[vm]) else {}
    }

    /** Changes the ownership of one page, if it is mapped and its block can be split. */
    method SetOwner(vm: nat, ipa: nat, sw: U2)
      requires Valid() && vm < MAX_VMS
      modifies tables, tables.heap
      ensures Valid() && Blk(1 - vm) == old(Blk(1 - vm))
      ensures SplitCost(old(tables.heap.Available()), old(Blk(vm)), PageOf(ipa), tables.heap.Available(), Blk(vm))
      ensures Abs().views == var v, p := old(Abs()).views[vm], PageOf(ipa);
                             old(Abs()).views[vm := if p in v && old(CanSplit(tables.heap.Available(), Blk(vm), PageOf(ipa))) then v[p := v[p].(sw := sw)] else v]
    {
      hide View, Blocks, Shape, BumpAllocator.Valid, Tables.Valid, CanSplit, SplitCost, PageOf;
      var _ := tables.WriteSwBits(l0[vm], ipa, sw);
    }

    /** Likewise the permission. */
    method SetPermission(vm: nat, ipa: nat, s2ap: U2)
      requires Valid() && vm < MAX_VMS
      modifies tables, tables.heap
      ensures Valid() && Blk(1 - vm) == old(Blk(1 - vm))
      ensures SplitCost(old(tables.heap.Available()), old(Blk(vm)), PageOf(ipa), tables.heap.Available(), Blk(vm))
      ensures Abs().views == var v, p := old(Abs()).views[vm], PageOf(ipa);
                             old(Abs()).views[vm := if p in v && old(CanSplit(tables.heap.Available(), Blk(vm), PageOf(ipa))) then v[p := v[p].(s2ap := s2ap)] else v]
    {
      hide View, Blocks, Shape, BumpAllocator.Valid, Tables.Valid, CanSplit, SplitCost, PageOf;
      var _ := tables.SetS2ap(l0[vm], ipa, s2ap);
    }

    /** Changes ownership and permission of one page, if it is mapped and its block can be split. */
    method SetPage(vm: nat, ipa: nat, sw: U2, s2ap: U2)
      requires Valid() && vm < MAX_VMS
      modifies tables, tables.heap
      ensures Valid() && Blk(1 - vm) == old(Blk(1 - vm))
      ensures Paid(old(tables.heap.Available()), old(Blk(vm)), {PageOf(ipa)}, tables.heap.Available(), Blk(vm))
      ensures Abs().views == old(Abs()).views[vm := SetPages(old(Abs()).views[vm], Outside({PageOf(ipa)}, Blk(vm)), sw, s2ap)]
    {
      hide View, Blocks, Shape, BumpAllocator.Valid, Tables.Valid, Valid, Blk, SetPages, Outside, Paid, CanSplit, SplitCost, PageOf;
      ghost var v, a, b := Abs().views[vm], tables.heap.Available(), Blk(vm);
      SetOnePage(v, PageOf(ipa), sw, s2ap);
      SetPagesTwice(v, {}, {}, sw, s2ap);
      PaidOne(a, b, PageOf(ipa));
      SetOwner(vm, ipa, sw);
      ghost var a1, b1 := tables.heap.Available(), Blk(vm);
      SetPermission(vm, ipa, s2ap);
      SplitTwice(a, b, PageOf(ipa), a1, b1, tables.heap.Available(), Blk(vm));
    }

    /** The inner loop: the pages of one range. */
    method SetRange(vm: nat, r: Range, sw: U2, s2ap: U2)
      requires Valid() && vm < MAX_VMS && InRange(r)
      modifies tables, tables.heap
      ensures Valid() && Blk(1 - vm) == old(Blk(1 - vm))
      ensures Paid(old(tables.heap.Available()), old(Blk(vm)), RangeSet(r, r.count), tables.heap.Available(), Blk(vm))
      ensures Abs().views == old(Abs()).views[vm := SetPages(old(Abs()).views[vm], Outside(RangeSet(r, r.count), Blk(vm)), sw, s2ap)]
    {
      hide View, Blocks, Shape, BumpAllocator.Valid, Tables.Valid, SetPages, RangeSet, Blk, Valid, Outside, Paid;
      ghost var v, a, b := Abs().views[vm], tables.heap.Available(), Blk(vm);
      SetPagesTwice(v, {}, {}, sw, s2ap);
      NoRange(r);
      PaidNone(a, b);
      for k := 0 to r.count
        invariant Valid() && Blk(1 - vm) == old(Blk(1 - vm))
        invariant Paid(a, b, RangeSet(r, k), tables.heap.Available(), Blk(vm))
        invariant Abs().views == old(Abs()).views[vm := SetPages(v, Outside(RangeSet(r, k), Blk(vm)), sw, s2ap)]
      {
        RangeStep(r, k);
        ghost var a1, b1 := tables.heap.Available(), Blk(vm);
        SetPage(vm, r.base + k * 4096, sw, s2ap);
        PaidStep(a, b, RangeSet(r, k), a1, b1, {PageAt(r, k)}, tables.heap.Available(), Blk(vm));
        SetPagesTwice(v, Outside(RangeSet(r, k), b1), Outside({PageAt(r, k)}, Blk(vm)), sw, s2ap);
      }
    }

    /** The nested loop that changes all pages of a range list. */
    method SetRanges(vm: nat, ranges: seq<Range>, sw: U2, s2ap: U2)
      requires Valid() && vm < MAX_VMS && RangesOk(ranges)
      modifies tables, tables.heap
      ensures Valid() && Blk(1 - vm) == old(Blk(1 - vm))
      ensures Paid(old(tables.heap.Available()), old(Blk(vm)), Pages(ranges), tables.heap.Available(), Blk(vm))
      ensures Abs().views == old(Abs()).views[vm := SetPages(old(Abs()).views[vm], Outside(Pages(ranges), Blk(vm)), sw, s2ap)]
    {
      hide View, Blocks, Shape, BumpAllocator.Valid, Tables.Valid, SetPages, Pages, RangeSet, Blk, Valid, Outside, Paid;
      ghost var v, a, b := Abs().views[vm], tables.heap.Available(), Blk(vm);
      SetPagesTwice(v, {}, {}, sw, s2ap);
      NoPages();
      PaidNone(a, b);
      for i := 0 to |ranges|
        invariant Valid() && Blk(1 - vm) == old(Blk(1 - vm))
        invariant Paid(a, b, Pages(ranges[..i]), tables.heap.Available(), Blk(vm))
        invariant Abs().views == old(Abs()).views[vm := SetPages(v, Outside(Pages(ranges[..i]), Blk(vm)), sw, s2ap)]
      {
        PagesStep(ranges, i);
        var r := ranges[i];
        ghost var a1, b1 := tables.heap.Available(), Blk(vm);
        SetRange(vm, r, sw, s2ap);
        PaidStep(a, b, Pages(ranges[..i]), a1, b1, RangeSet(r, r.count), tables.heap.Available(), Blk(vm));
        SetPagesTwice(v, Outside(Pages(ranges[..i]), b1), Outside(RangeSet(r, r.count), Blk(vm)), sw, s2ap);
      }
      assert ranges[..|ranges|] == ranges;
    }

    /** The heap can pay for the splits that changing `ps` needs. */
    ghost predicate CanPay(vm: nat, ps: set<PageNo>)
      reads tables, tables.heap
    {
      tables.heap.Available() >= |Blk(vm) * BlocksOf(ps)|
    }

    // ---- the records (src/ffa/stub_spmc.rs) ----

    /** `lookup_share_full`: the first active record with the handle. */
    method LookupShare(h: nat) returns (r: Option<nat>)
      requires records.Length == MAX_SHARES
      ensures r == Find(records[..], h)
    {
      for i := 0 to records.Length
        invariant FindFrom(records[..], h, 0) == FindFrom(records[..], h, i)
      {
        if records[i].active && records[i].handle == h { return Some(i); }
      }
      return None;
    }

    /** `record_share`: takes a handle, and the first free record if there is one. */
    method RecordShare(sender: nat, receiver: nat, ranges: seq<Range>, isLend: bool) returns (r: Option<nat>)
      requires records.Length == MAX_SHARES
      modifies this`nextHandle, records
      ensures nextHandle == old(nextHandle) + 1
      ensures match FirstFree(old(records[..]), 0)
              case None => r == None && records[..] == old(records[..])
              case Some(i) => r == Some(old(nextHandle)) &&
                              records[..] == old(records[..])[i := Record(old(nextHandle), sender, receiver, ShareProtocol.Kept(ranges), true, isLend, false)]
    {
      var handle := nextHandle;
      nextHandle := nextHandle + 1;
      for i := 0 to records.Length
        invariant records[..] == old(records[..]) && nextHandle == old(nextHandle) + 1
        invariant FirstFree(records[..], 0) == FirstFree(records[..], i)
      {
        if !records[i].active {
          var stored: seq<Range> := [];
          var count := if |ranges| < MAX_SHARE_RANGES then |ranges| else MAX_SHARE_RANGES;
          for k := 0 to count
            invariant stored == ranges[..k]
          {
            stored := stored + [ranges[k]];
          }
          assert stored == ShareProtocol.Kept(ranges);
          records[i] := Record(handle, sender, receiver, stored, true, isLend, false);
          return Some(handle);
        }
      }
      return None;
    }

    /** `mark_retrieved` and `mark_relinquished`: sets the flag of the first active record with the
        handle whose flag differs, if there is one. */
    method MarkRetrieved(h: nat, flag: bool) returns (ok: bool)
      requires records.Length == MAX_SHARES
      modifies records
      ensures var found := FindFlag(old(records[..]), h, flag, 0);
              && ok == found.Some?
              && records[..] == if ok then old(records[..])[found.value := old(records[..])[found.value].(retrieved := flag)] else old(records[..])
    {
      for i := 0 to records.Length
        invariant records[..] == old(records[..])
        invariant FindFlag(records[..], h, flag, 0) == FindFlag(records[..], h, flag, i)
      {
        if records[i].active && records[i].handle == h && records[i].retrieved != flag {
          records[i] := records[i].(retrieved := flag);
          return true;
        }
      }
      return false;
    }

    /** `reclaim_share`: frees the first active record with the handle, if there is one. */
    method FreeShare(h: nat) returns (ok: bool)
      requires records.Length == MAX_SHARES
      modifies records
      ensures var found := Find(old(records[..]), h);
              && ok == found.Some?
              && records[..] == if ok then old(records[..])[found.value := old(records[..])[found.value].(active := false)] else old(records[..])
    {
      for i := 0 to records.Length
        invariant records[..] == old(records[..])
        invariant FindFrom(records[..], h, 0) == FindFrom(records[..], h, i)
      {
        if records[i].active && records[i].handle == h {
          records[i] := records[i].(active := false);
          return true;
        }
      }
      return false;
    }

    // ---- mapping and unmapping ----

    /** The L1 table above a page is there. */
    ghost predicate HasL1(vm: nat, p: PageNo)
      reads tables.heap
    {
      vm < |l0| && At(tables.heap.mem, l0[vm], I0(p)).IsTable()
    }

    /** The L1 tables above `ps` are there, and the heap has a page for every table below that is not. */
    ghost predicate CanBuild(vm: nat, ps: set<PageNo>)
      reads tables, tables.heap
    {
      (forall p <- ps :: HasL1(vm, p)) && tables.heap.Available() >= Need(Gap2(vm), Gap3(vm), ps)
    }

    /** One page of the receiver: mapped to itself, exactly if it can be. */
    method MapOne(vm: nat, ipa: nat) returns (r: Outcome)
      requires Valid() && vm < MAX_VMS && ipa < PAGES * 4096
      modifies tables, tables.heap
      ensures Valid() && Blk(0) == old(Blk(0)) && Blk(1) == old(Blk(1))
      ensures r.Ok? <==> PageOf(ipa) !in old(Abs()).views[vm] && old(CanBuild(vm, {PageOf(ipa)}))
      ensures r.Ok? ==> PageOf(ipa) / 512 !in Blk(vm)
      ensures Abs().views == (if r.Ok? then old(Abs()).views[vm := MapPages(old(Abs()).views[vm], {PageOf(ipa)})] else old(Abs()).views)
      ensures r.Ok? ==> Built(old(tables.heap.Available()), old(Gap2(vm)), old(Gap3(vm)), {PageOf(ipa)}, tables.heap.Available(), Gap2(vm), Gap3(vm))
      ensures forall p: PageNo :: HasL1(vm, p) == old(HasL1(vm, p))
    {
      hide View, Blocks, Shape, BumpAllocator.Valid, Tables.Valid, MapPages, NoL2, NoL3, IdentityLeaf, Need, GigsOf, BlocksOf, PageOf, HighOf, I0, MissingTables;
      MapOnePage(tables.Translation(l0[vm]), PageOf(ipa));
      BelowLimit(ipa, S2AP_RW, SHARED_BORROWED);
      NeedOne(tables.heap.mem, l0[vm], PageOf(ipa));
      r := tables.MapPage(l0[vm], ipa, S2AP_RW, SHARED_BORROWED);
    }

    /** Maps the pages of one range until one cannot be mapped. */
    method MapRange(vm: nat, r: Range) returns (n: nat)
      requires Valid() && vm < MAX_VMS && InRange(r)
      modifies tables, tables.heap
      ensures Valid() && Blk(0) == old(Blk(0)) && Blk(1) == old(Blk(1)) && n <= r.count
      ensures RangeSet(r, n) !! old(Abs()).views[vm].Keys && BlocksOf(RangeSet(r, n)) !! Blk(vm)
      ensures Abs().views == old(Abs()).views[vm := MapPages(old(Abs()).views[vm], RangeSet(r, n))]
      ensures forall p: PageNo :: HasL1(vm, p) == old(HasL1(vm, p))
      ensures n == r.count ==> Built(old(tables.heap.Available()), old(Gap2(vm)), old(Gap3(vm)), RangeSet(r, n), tables.heap.Available(), Gap2(vm), Gap3(vm))
      ensures n == r.count <==> RangeSet(r, r.count) !! old(Abs()).views[vm].Keys && old(CanBuild(vm, RangeSet(r, r.count)))
    {
      hide View, Blocks, Shape, BumpAllocator.Valid, Tables.Valid, MapPages, RangeSet, Blk, Gap2, Gap3, Valid, BlocksOf, HasL1, Built, Need;
      ghost var v, a, g, b := Abs().views[vm], tables.heap.Available(), Gap2(vm), Gap3(vm);
      NoRange(r);
      NoPages();
      BuiltNone(a, g, b);
      MapPagesTwice(v, {}, {});
      n := 0;
      while n < r.count
        invariant n <= r.count && Valid() && Blk(0) == old(Blk(0)) && Blk(1) == old(Blk(1))
        invariant RangeSet(r, n) !! v.Keys && BlocksOf(RangeSet(r, n)) !! Blk(vm)
        invariant Abs().views == old(Abs()).views[vm := MapPages(v, RangeSet(r, n))]
        invariant forall p: PageNo :: HasL1(vm, p) == old(HasL1(vm, p))
        invariant forall p <- RangeSet(r, n) :: HasL1(vm, p)
        invariant Built(a, g, b, RangeSet(r, n), tables.heap.Available(), Gap2(vm), Gap3(vm))
      {
        RangeStep(r, n);
        NewInRange(r, n);
        PageInBlocks({PageAt(r, n)}, PageAt(r, n));
        BlocksOfUnion(RangeSet(r, n), {PageAt(r, n)});
        MapPagesTwice(v, RangeSet(r, n), {PageAt(r, n)});
        ghost var a1, g1, b1 := tables.heap.Available(), Gap2(vm), Gap3(vm);
        RangeSetGrows(r, n + 1);
        BuiltShort(a, g, b, RangeSet(r, n), a1, g1, b1, {PageAt(r, n)}, RangeSet(r, r.count));
        var ok := MapOne(vm, r.base + n * 4096);
        if ok.Err? { return; }
        BuiltStep(a, g, b, RangeSet(r, n), a1, g1, b1, {PageAt(r, n)}, tables.heap.Available(), Gap2(vm), Gap3(vm));
        n := n + 1;
      }
      BuiltMeans(a, g, b, RangeSet(r, n), tables.heap.Available(), Gap2(vm), Gap3(vm));
    }

    /** Unmaps one page, unless it lies in an unsplit block. */
    method UnmapOne(vm: nat, ipa: nat)
      requires Valid() && vm < MAX_VMS
      modifies tables.heap
      ensures Valid() && Blk(0) == old(Blk(0)) && Blk(1) == old(Blk(1))
      ensures Abs().views == old(Abs()).views[vm := old(Abs()).views[vm] - Outside({PageOf(ipa)}, Blk(vm))]
    {
      hide View, Blocks, Shape, BumpAllocator.Valid, Tables.Valid, Outside;
      OutsideOne(PageOf(ipa), Blk(vm));
      Minus(Abs().views[vm], {PageOf(ipa)}, {});
      var _ := tables.UnmapPage(l0[vm], ipa);
    }

    /** Unmaps the first `n` pages of a range; the pages of unsplit blocks stay. */
    method UnmapRange(vm: nat, r: Range, n: nat)
      requires Valid() && vm < MAX_VMS && InRange(r) && n <= r.count
      modifies tables.heap
      ensures Valid() && Blk(0) == old(Blk(0)) && Blk(1) == old(Blk(1))
      ensures Abs().views == old(Abs()).views[vm := old(Abs()).views[vm] - Outside(RangeSet(r, n), Blk(vm))]
    {
      hide View, Blocks, Shape, BumpAllocator.Valid, Tables.Valid, RangeSet, Outside, Valid, Blk;
      NoRange(r);
      OutsideNone(Blk(vm));
      Minus(Abs().views[vm], {}, {});
      for k := 0 to n
        invariant Valid() && Blk(0) == old(Blk(0)) && Blk(1) == old(Blk(1))
        invariant Abs().views == old(Abs()).views[vm := old(Abs()).views[vm] - Outside(RangeSet(r, k), Blk(vm))]
      {
        RangeStep(r, k);
        OutsideUnion(RangeSet(r, k), {PageAt(r, k)}, Blk(vm));
        Minus(old(Abs()).views[vm], Outside(RangeSet(r, k), Blk(vm)), Outside({PageAt(r, k)}, Blk(vm)));
        UnmapOne(vm, r.base + k * 4096);
      }
    }

    /** The rollback of a retrieve that failed at page `k` of range `i`. */
    method Rollback(vm: nat, ranges: seq<Range>, i: nat, k: nat)
      requires Valid() && vm < MAX_VMS && RangesOk(ranges) && i < |ranges| && k <= ranges[i].count && InRange(ranges[i])
      modifies tables.heap
      ensures Valid() && Blk(0) == old(Blk(0)) && Blk(1) == old(Blk(1))
      ensures Abs().views == old(Abs()).views[vm := old(Abs()).views[vm] - Outside(Pages(ranges[..i]) + RangeSet(ranges[i], k), Blk(vm))]
    {
      hide View, Blocks, Shape, BumpAllocator.Valid, Tables.Valid, RangeSet, Pages, Valid, Outside, Blk;
      NoPages();
      OutsideNone(Blk(vm));
      Minus(Abs().views[vm], {}, {});
      for j := 0 to i + 1
        invariant Valid() && Blk(0) == old(Blk(0)) && Blk(1) == old(Blk(1))
        invariant Abs().views == old(Abs()).views[vm := old(Abs()).views[vm] -
                    Outside(if j <= i then Pages(ranges[..j]) else Pages(ranges[..i]) + RangeSet(ranges[i], k), Blk(vm))]
      {
        PagesStep(ranges, j);
        var end := if j == i then k else ranges[j].count;
        OutsideUnion(Pages(ranges[..j]), RangeSet(ranges[j], end), Blk(vm));
        Minus(old(Abs()).views[vm], Outside(Pages(ranges[..j]), Blk(vm)), Outside(RangeSet(ranges[j], end), Blk(vm)));
        UnmapRange(vm, ranges[j], end);
      }
    }

    /** Maps all pages of a range list, or none; exactly those lists that can be mapped. */
    method MapRanges(vm: nat, ranges: seq<Range>) returns (done: bool)
      requires Valid() && vm < MAX_VMS && RangesOk(ranges)
      modifies tables, tables.heap
      ensures Valid() && Blk(0) == old(Blk(0)) && Blk(1) == old(Blk(1))
      ensures done <==> NoRepeat(PageList(ranges)) && Pages(ranges) !! old(Abs()).views[vm].Keys && old(CanBuild(vm, Pages(ranges)))
      ensures done ==> BlocksOf(Pages(ranges)) !! Blk(vm)
      ensures Abs().views == if done then old(Abs()).views[vm := MapPages(old(Abs()).views[vm], Pages(ranges))] else old(Abs()).views
    {
      hide View, Blocks, Shape, BumpAllocator.Valid, Tables.Valid, MapPages, RangeSet, RangeList, PageList, Pages, NoRepeat;
      hide Blk, Gap2, Gap3, Valid, BlocksOf, HasL1, Outside, Built, Need;
      ghost var v, a, g, b := Abs().views[vm], tables.heap.Available(), Gap2(vm), Gap3(vm);
      NoPages();
      BuiltNone(a, g, b);
      MapPagesTwice(v, {}, {});
      for i := 0 to |ranges|
        invariant Valid() && Blk(0) == old(Blk(0)) && Blk(1) == old(Blk(1))
        invariant NoRepeat(PageList(ranges[..i])) && Pages(ranges[..i]) !! v.Keys && BlocksOf(Pages(ranges[..i])) !! Blk(vm)
        invariant Abs().views == old(Abs()).views[vm := MapPages(v, Pages(ranges[..i]))]
        invariant forall p: PageNo :: HasL1(vm, p) == old(HasL1(vm, p))
        invariant forall p <- Pages(ranges[..i]) :: HasL1(vm, p)
        invariant Built(a, g, b, Pages(ranges[..i]), tables.heap.Available(), Gap2(vm), Gap3(vm))
      {
        var r := ranges[i];
        PagesStep(ranges, i);
        RepeatStep(ranges, i);
        PrefixNoRepeat(ranges, i + 1);
        MapPagesTwice(v, Pages(ranges[..i]), RangeSet(r, r.count));
        BlocksOfUnion(Pages(ranges[..i]), RangeSet(r, r.count));
        ghost var a1, g1, b1 := tables.heap.Available(), Gap2(vm), Gap3(vm);
        BuiltShort(a, g, b, Pages(ranges[..i]), a1, g1, b1, RangeSet(r, r.count), Pages(ranges));
        var n := MapRange(vm, r);
        if n < r.count {
          MapPagesTwice(v, Pages(ranges[..i]), RangeSet(r, n));
          BlocksOfUnion(Pages(ranges[..i]), RangeSet(r, n));
          Minus(v, Pages(ranges[..i]) + RangeSet(r, n), {});
          OutsideAll(Pages(ranges[..i]) + RangeSet(r, n), Blk(vm));
          Rollback(vm, ranges, i, n);
          return false;
        }
        BuiltStep(a, g, b, Pages(ranges[..i]), a1, g1, b1, RangeSet(r, r.count), tables.heap.Available(), Gap2(vm), Gap3(vm));
      }
      assert ranges[..|ranges|] == ranges;
      BuiltMeans(a, g, b, Pages(ranges), tables.heap.Available(), Gap2(vm), Gap3(vm));
      return true;
    }

    /** Unmaps all pages of a range list; the pages of unsplit blocks stay. */
    method UnmapRanges(vm: nat, ranges: seq<Range>)
      requires Valid() && vm < MAX_VMS && RangesOk(ranges)
      modifies tables.heap
      ensures Valid() && Blk(0) == old(Blk(0)) && Blk(1) == old(Blk(1))
      ensures Abs().views == old(Abs()).views[vm := old(Abs()).views[vm] - Outside(Pages(ranges), Blk(vm))]
    {
      hide View, Blocks, Shape, BumpAllocator.Valid, Tables.Valid, RangeSet, Pages, Valid, Blk, Outside;
      NoPages();
      OutsideNone(Blk(vm));
      Minus(Abs().views[vm], {}, {});
      for i := 0 to |ranges|
        invariant Valid() && Blk(0) == old(Blk(0)) && Blk(1) == old(Blk(1))
        invariant Abs().views == old(Abs()).views[vm := old(Abs()).views[vm] - Outside(Pages(ranges[..i]), Blk(vm))]
      {
        var r := ranges[i];
        PagesStep(ranges, i);
        OutsideUnion(Pages(ranges[..i]), RangeSet(r, r.count), Blk(vm));
        Minus(old(Abs()).views[vm], Outside(Pages(ranges[..i]), Blk(vm)), Outside(RangeSet(r, r.count), Blk(vm)));
        UnmapRange(vm, r, r.count);
      }
      assert ranges[..|ranges|] == ranges;
    }

    // ---- the handlers ----

    /** The validation loop of a share: every page is mapped and owned. */
    method ValidateOwned(vm: nat, ranges: seq<Range>) returns (ok: bool)
      requires Valid() && vm < MAX_VMS && RangesOk(ranges)
      ensures ok <==> AllOwned(Abs().views[vm], Pages(ranges))
    {
      hide View, Blocks, Shape, BumpAllocator.Valid, Tables.Valid, RangeSet, RangeList, PageList, Pages;
      NoPages();
      for i := 0 to |ranges|
        invariant AllOwned(Abs().views[vm], Pages(ranges[..i]))
      {
        var r := ranges[i];
        PagesStep(ranges, i);
        NoRange(r);
        for k := 0 to r.count
          invariant AllOwned(Abs().views[vm], Pages(ranges[..i]) + RangeSet(r, k))
        {
          RangeStep(r, k);
          var sw := tables.ReadSwBits(l0[vm], r.base + k * 4096);
          if sw != Some(OWNED) {
            assert PageAt(r, k) in Pages(ranges);
            return false;
          }
        }
      }
      assert ranges[..|ranges|] == ranges;
      return true;
    }

    /** `handle_mem_share_or_lend`: a step of the protocol exactly when the heap can pay for the
        splits, whose failure the handler ignores. */
    method MemShareOrLend(vm: nat, descSender: nat, receiver: nat, ranges: seq<Range>, isLend: bool) returns (reply: Reply)
      requires Fine() && vm < MAX_VMS && RangesOk(ranges)
      modifies this, records, tables, tables.heap
      ensures Fine()
      ensures (Abs(), reply) == ShareSpec(old(Abs()), vm, descSender, receiver, ranges, isLend) <==>
              (ShareAccepted(old(Abs()), vm, descSender, receiver, ranges) ==> old(CanPay(vm, Pages(ranges))))
      ensures var (s, r) := ShareSpec(old(Abs()), vm, descSender, receiver, ranges, isLend);
              reply == r && records[..] == s.records && nextHandle == s.nextHandle
      ensures ShareAccepted(old(Abs()), vm, descSender, receiver, ranges) ==>
                && Paid(old(tables.heap.Available()), old(Blk(vm)), Pages(ranges), tables.heap.Available(), Blk(vm))
                && Abs().views == old(Abs()).views[vm := SetPages(old(Abs()).views[vm], Outside(Pages(ranges), Blk(vm)), SHARED_OWNED, Perm(isLend))]
                && (forall p <- Pages(ranges) :: BlockOf(p) !in Blk(vm) ==> SharedAs(Abs().views[vm], p, isLend))
    {
      hide View, Blocks, Shape, BumpAllocator.Valid, Tables.Valid, SetPages, Pages, PageList, BlocksOf, Blk, AllOwned, BlocksOwned, FirstFree, Outside, Paid, HeldSplit, SharedAs;
      if !ValidReceiver(receiver) || (descSender != 0 && descSender != PartitionId(vm)) { return InvalidParameters; }
      var ok := ValidateOwned(vm, ranges);
      if !ok { return Denied; }
      ghost var v, a, b := Abs().views[vm], tables.heap.Available(), Blk(vm);
      SetRanges(vm, ranges, SHARED_OWNED, Perm(isLend));
      SetKeepsBlocksOwned(v, b, Blk(vm), Pages(ranges), SHARED_OWNED, Perm(isLend), a, tables.heap.Available());
      SharedExactly(v, b, Blk(vm), Pages(ranges), Perm(isLend), a, tables.heap.Available());
      SharedAccess(v, Pages(ranges), Blk(vm), isLend);
      assert RangesOk(ShareProtocol.Kept(ranges));
      PaidShrinks(a, b, Pages(ranges), tables.heap.Available(), Blk(vm));
      HeldSplitKept(records[..], 0, Blk(0), old(Blk(0)));
      HeldSplitKept(records[..], 1, Blk(1), old(Blk(1)));
      ghost var free := FirstFree(records[..], 0);
      if free.Some? {
        NotHeldSplit(records[..], free.value, Record(nextHandle, PartitionId(vm), receiver, ShareProtocol.Kept(ranges), true, isLend, false), Blk(0), Blk(1));
      }
      var h := RecordShare(PartitionId(vm), receiver, ranges, isLend);
      return if h.None? then NoMemory else Success(h.value);
    }

    /** `handle_mem_reclaim`. */
    method MemReclaim(vm: nat, h: nat) returns (reply: Reply)
      requires Fine() && vm < MAX_VMS
      modifies this, records, tables, tables.heap
      ensures Fine() && (Abs(), reply) == ReclaimSpec(old(Abs()), vm, h)
    {
      hide View, Blocks, Shape, BumpAllocator.Valid, Tables.Valid, SetPages, Pages, PageList, BlocksOf, Blk, BlocksOwned, FindFrom, Outside, Paid, HeldSplit;
      var found := LookupShare(h);
      if found.None? { return InvalidParameters; }
      var r := records[found.value];
      assert r in records[..];
      if r.retrieved { return Denied; }
      ghost var v, a, b := Abs().views[vm], tables.heap.Available(), Blk(vm);
      SetRanges(vm, r.ranges, OWNED, S2AP_RW);
      SetKeepsBlocksOwned(v, b, Blk(vm), Pages(r.ranges), OWNED, S2AP_RW, a, tables.heap.Available());
      PaidShrinks(a, b, Pages(r.ranges), tables.heap.Available(), Blk(vm));
      HeldSplitKept(records[..], 0, Blk(0), old(Blk(0)));
      HeldSplitKept(records[..], 1, Blk(1), old(Blk(1)));
      NotHeldSplit(records[..], found.value, r.(active := false), Blk(0), Blk(1));
      var _ := FreeShare(h);
      return Done;
    }

    /** The heap can pay for the tables that retrieving the handle needs. */
    ghost predicate TablesFit(vm: nat, h: nat)
      requires Valid()
      reads this, records, tables, tables.heap
    {
      var found := Find(records[..], h);
      found.Some? ==> assert records[found.value] in records[..]; CanBuild(vm, Pages(records[found.value].ranges))
    }

    /** `handle_mem_retrieve_req`: all or nothing, whatever the record and the tables. */
    method MemRetrieveReq(vm: nat, h: nat) returns (reply: Reply)
      requires Fine() && vm < MAX_VMS
      modifies this, records, tables, tables.heap
      ensures Fine() && (Abs(), reply) == RetrieveSpec(old(Abs()), vm, h, old(TablesFit(vm, h)))
    {
      hide View, Blocks, Shape, BumpAllocator.Valid, Tables.Valid, MapPages, Pages, PageList, NoRepeat, BlocksOf, Blk, BlocksOwned, FindFrom, HeldSplit, CanBuild;
      var found := LookupShare(h);
      if found.None? { return InvalidParameters; }
      var r := records[found.value];
      assert r in records[..];
      if PartitionId(vm) != r.receiver || r.retrieved { return Denied; }
      MapKeepsBlocksOwned(Abs().views[vm], Blk(vm), Pages(r.ranges));
      var done := MapRanges(vm, r.ranges);
      if !done { return Denied; }
      FlagOfFound(records[..], h, true);
      HeldSplitSet(records[..], found.value, r.(retrieved := true), 0, Blk(0));
      HeldSplitSet(records[..], found.value, r.(retrieved := true), 1, Blk(1));
      var _ := MarkRetrieved(h, true);
      return Retrieved;
    }

    /** `handle_mem_relinquish`. */
    method MemRelinquish(vm: nat, h: nat) returns (reply: Reply)
      requires Fine() && vm < MAX_VMS
      modifies this, records, tables, tables.heap
      ensures Fine() && (Abs(), reply) == RelinquishSpec(old(Abs()), vm, h)
    {
      hide View, Blocks, Shape, BumpAllocator.Valid, Tables.Valid, Pages, PageList, BlocksOf, Blk, BlocksOwned, FindFrom, Outside, HeldSplit;
      var found := LookupShare(h);
      if found.None? { return InvalidParameters; }
      var r := records[found.value];
      assert r in records[..];
      if PartitionId(vm) != r.receiver || !r.retrieved { return Denied; }
      HeldOutside(records[..], r, vm, Blk(vm));
      MinusKeepsBlocksOwned(Abs().views[vm], Blk(vm), Outside(Pages(r.ranges), Blk(vm)));
      UnmapRanges(vm, r.ranges);
      FlagOfFound(records[..], h, false);
      NotHeldSplit(records[..], found.value, r.(retrieved := false), Blk(0), Blk(1));
      var _ := MarkRetrieved(h, false);
      return Done;
    }
  }

  // ---- records ----

  /** The first active record with the handle whose flag differs from `flag`. */
  function FindFlag(records: seq<Record>, h: nat, flag: bool, i: nat): (r: Option<nat>)
    requires i <= |records|
    ensures r.Some? ==> i <= r.value < |records| && records[r.value].active && records[r.value].handle == h && records[r.value].retrieved != flag
    ensures forall k :: i <= k < (if r.Some? then r.value else |records|) ==>
                          !(records[k].active && records[k].handle == h && records[k].retrieved != flag)
    decreases |records| - i
  {
    if i == |records| then None
    else if records[i].active && records[i].handle == h && records[i].retrieved != flag then Some(i)
    else FindFlag(records, h, flag, i + 1)
  }

  lemma FlagOfFound(records: seq<Record>, h: nat, flag: bool)
    ensures var found := Find(records, h);
            found.Some? && records[found.value].retrieved != flag ==> FindFlag(records, h, flag, 0) == found
  {
    hide FindFrom, FindFlag;
  }

  lemma HeldSplitKept(records: seq<Record>, vm: nat, blocks': set<U27>, blocks: set<U27>)
    requires HeldSplit(records, vm, blocks) && blocks' <= blocks
    ensures HeldSplit(records, vm, blocks')
  {
    hide Pages, BlocksOf;
  }

  lemma HeldSplitSet(records: seq<Record>, i: nat, r: Record, vm: nat, blocks: set<U27>)
    requires HeldSplit(records, vm, blocks) && i < |records|
    requires Held(r, vm) && RangesOk(r.ranges) ==> BlocksOf(Pages(r.ranges)) !! blocks
    ensures HeldSplit(records[i := r], vm, blocks)
  {
    hide Pages, BlocksOf;
  }

  lemma NotHeldSplit(records: seq<Record>, i: nat, r: Record, blocks0: set<U27>, blocks1: set<U27>)
    requires HeldSplit(records, 0, blocks0) && HeldSplit(records, 1, blocks1) && i < |records| && !(r.active && r.retrieved)
    ensures HeldSplit(records[i := r], 0, blocks0) && HeldSplit(records[i := r], 1, blocks1)
  {
    HeldSplitSet(records, i, r, 0, blocks0);
    HeldSplitSet(records, i, r, 1, blocks1);
  }

  /** The pages of a held record were mapped one by one: none of them lies in an unsplit block. */
  lemma HeldOutside(records: seq<Record>, r: Record, vm: nat, blocks: set<U27>)
    requires HeldSplit(records, vm, blocks) && r in records && Held(r, vm) && RangesOk(r.ranges)
    ensures Outside(Pages(r.ranges), blocks) == Pages(r.ranges)
  {
    OutsideAll(Pages(r.ranges), blocks);
  }

  // ---- tables and their cost ----

  lemma GigsOfUnion(a: set<PageNo>, b: set<PageNo>)
    ensures GigsOf(a + b) == GigsOf(a) + GigsOf(b)
  {
  }

  lemma NeedOne(mem: Mem, l0: PageNo, p: PageNo)
    ensures Need(NoL2(mem, l0), NoL3(mem, l0), {p}) == MissingTables(mem, l0, p)
    ensures GigsOf({p}) == {GigOf(p)} && BlocksOf({p}) == {BlockOf(p)}
  {
    hide NoL2, NoL3;
    GapsOf(mem, l0, p);
    assert GigsOf({p}) == {GigOf(p)} && BlocksOf({p}) == {BlockOf(p)};
    assert NoL2(mem, l0) * {GigOf(p)} == if GigOf(p) in NoL2(mem, l0) then {GigOf(p)} else {};
    assert NoL3(mem, l0) * {BlockOf(p)} == if BlockOf(p) in NoL3(mem, l0) then {BlockOf(p)} else {};
  }

  /** What a union needs: first the one set and then, with its tables in place, the other. */
  lemma NeedUnion(g: set<U18>, b: set<U27>, ps: set<PageNo>, qs: set<PageNo>)
    ensures Need(g, b, ps + qs) == Need(g, b, ps) + Need(g - GigsOf(ps), b - BlocksOf(ps), qs)
  {
    GigsOfUnion(ps, qs);
    BlocksOfUnion(ps, qs);
    assert g * (GigsOf(ps) + GigsOf(qs)) == g * GigsOf(ps) + (g - GigsOf(ps)) * GigsOf(qs);
    assert b * (BlocksOf(ps) + BlocksOf(qs)) == b * BlocksOf(ps) + (b - BlocksOf(ps)) * BlocksOf(qs);
  }

  lemma BuiltNone(a: nat, g: set<U18>, b: set<U27>)
    ensures Built(a, g, b, {}, a, g, b)
  {
    assert GigsOf({}) == {} && BlocksOf({}) == {};
  }

  lemma BuiltMeans(a: nat, g: set<U18>, b: set<U27>, ps: set<PageNo>, a': nat, g': set<U18>, b': set<U27>)
    requires Built(a, g, b, ps, a', g', b')
    ensures a >= Need(g, b, ps)
  {
  }

  lemma BuiltStep(a: nat, g: set<U18>, b: set<U27>, ps: set<PageNo>, a1: nat, g1: set<U18>, b1: set<U27>, qs: set<PageNo>, a2: nat, g2: set<U18>, b2: set<U27>)
    requires Built(a, g, b, ps, a1, g1, b1) && Built(a1, g1, b1, qs, a2, g2, b2)
    ensures Built(a, g, b, ps + qs, a2, g2, b2)
  {
    hide GigsOf, BlocksOf, Need;
    NeedUnion(g, b, ps, qs);
    GigsOfUnion(ps, qs);
    BlocksOfUnion(ps, qs);
  }

  /** If the heap gives out on the way, it was too small from the start. */
  lemma BuiltShort(a: nat, g: set<U18>, b: set<U27>, ps: set<PageNo>, a1: nat, g1: set<U18>, b1: set<U27>, qs: set<PageNo>, all: set<PageNo>)
    requires Built(a, g, b, ps, a1, g1, b1) && ps + qs <= all
    ensures a1 < Need(g1, b1, qs) ==> a < Need(g, b, all)
  {
    hide GigsOf, BlocksOf, Need;
    NeedUnion(g, b, ps, qs);
    NeedUnion(g, b, ps + qs, all);
    assert ps + qs + all == all;
  }

  // ---- splits and their cost ----

  lemma PaidNone(a: nat, b: set<U27>)
    ensures Paid(a, b, {}, a, b) && Outside({}, b) == {}
  {
  }

  lemma PaidOne(a: nat, b: set<U27>, p: PageNo)
    ensures forall a', b' :: SplitCost(a, b, p, a', b') ==> Paid(a, b, {p}, a', b') && Outside({p}, b') == if CanSplit(a, b, p) then {p} else {}
  {
    PageInBlocks({p}, p);
  }

  /** What was split stays split, and what could not be split still cannot. */
  lemma SplitTwice(a: nat, b: set<U27>, p: PageNo, a1: nat, b1: set<U27>, a2: nat, b2: set<U27>)
    requires SplitCost(a, b, p, a1, b1) && SplitCost(a1, b1, p, a2, b2)
    ensures a2 == a1 && b2 == b1 && CanSplit(a1, b1, p) == CanSplit(a, b, p)
  {
  }

  lemma PaidStep(a: nat, b: set<U27>, ps: set<PageNo>, a1: nat, b1: set<U27>, qs: set<PageNo>, a2: nat, b2: set<U27>)
    requires Paid(a, b, ps, a1, b1) && Paid(a1, b1, qs, a2, b2)
    ensures Paid(a, b, ps + qs, a2, b2) && Outside(ps + qs, b2) == Outside(ps, b1) + Outside(qs, b2)
  {
    BlocksOfUnion(ps, qs);
    if a1 == 0 {
      SubsetSize(b2, b1);
    } else {
      NotInBlocks(ps, ps, b1);
    }
  }

  lemma PaidShrinks(a: nat, b: set<U27>, ps: set<PageNo>, a': nat, b': set<U27>)
    requires Paid(a, b, ps, a', b')
    ensures b' <= b
  {
  }

  /** The heap could pay exactly when no block of the pages is left. */
  lemma PaidEnough(a: nat, b: set<U27>, ps: set<PageNo>, a': nat, b': set<U27>)
    requires Paid(a, b, ps, a', b')
    ensures a >= |b * BlocksOf(ps)| <==> BlocksOf(ps) !! b'
  {
    var need, gone := b * BlocksOf(ps), b - b';
    assert b == gone + b' && gone !! b';
    SubsetSize(gone, need);
    if BlocksOf(ps) !! b' { SubsetSize(need, gone); } else { assert need != gone; }
  }

  /** Sharing pages that are all owned takes effect on every page exactly when the heap can pay. */
  lemma SharedExactly(v: Translation, b: set<U27>, b': set<U27>, ps: set<PageNo>, s2ap: U2, a: nat, a': nat)
    requires AllOwned(v, ps) && Paid(a, b, ps, a', b')
    ensures SetPages(v, Outside(ps, b'), SHARED_OWNED, s2ap) == SetPages(v, ps, SHARED_OWNED, s2ap) <==> a >= |b * BlocksOf(ps)|
  {
    PaidEnough(a, b, ps, a', b');
    if BlocksOf(ps) !! b' {
      OutsideAll(ps, b');
    } else {
      var p :| p in ps && BlockOf(p) in b';
      assert SetPages(v, Outside(ps, b'), SHARED_OWNED, s2ap)[p].sw == OWNED;
    }
  }

  /** Whatever could be split: blocks that stay are owned and read-write, and making pages owned and
      read-write misses none of them. */
  lemma SetKeepsBlocksOwned(v: Translation, b: set<U27>, b': set<U27>, ps: set<PageNo>, sw: U2, s2ap: U2, a: nat, a': nat)
    requires BlocksOwned(v, b) && Paid(a, b, ps, a', b')
    ensures BlocksOwned(SetPages(v, Outside(ps, b'), sw, s2ap), b')
    ensures sw == OWNED && s2ap == S2AP_RW ==> SetPages(v, Outside(ps, b'), sw, s2ap) == SetPages(v, ps, sw, s2ap)
  {
  }

  lemma SharedAccess(v: Translation, ps: set<PageNo>, blocks: set<U27>, isLend: bool)
    requires AllOwned(v, ps)
    ensures forall p <- ps :: BlockOf(p) !in blocks ==> SharedAs(SetPages(v, Outside(ps, blocks), SHARED_OWNED, Perm(isLend)), p, isLend)
  {
  }

  lemma OutsideNone(blocks: set<U27>)
    ensures Outside({}, blocks) == {}
  {
  }

  lemma OutsideUnion(a: set<PageNo>, b: set<PageNo>, blocks: set<U27>)
    ensures Outside(a + b, blocks) == Outside(a, blocks) + Outside(b, blocks)
  {
  }

  lemma OutsideOne(p: PageNo, blocks: set<U27>)
    ensures Outside({p}, blocks) == if p / 512 in blocks then {} else {p}
  {
  }

  lemma OutsideAll(ps: set<PageNo>, blocks: set<U27>)
    requires BlocksOf(ps) !! blocks
    ensures Outside(ps, blocks) == ps
  {
    NotInBlocks(ps, ps, blocks);
  }

  lemma MapKeepsBlocksOwned(v: Translation, blocks: set<U27>, ps: set<PageNo>)
    requires BlocksOwned(v, blocks)
    ensures BlocksOf(ps) !! blocks ==> BlocksOwned(MapPages(v, ps), blocks)
  {
    if BlocksOf(ps) !! blocks { NotInBlocks(ps, ps, blocks); }
  }

  lemma MinusKeepsBlocksOwned(v: Translation, blocks: set<U27>, ps: set<PageNo>)
    requires BlocksOwned(v, blocks)
    ensures BlocksOwned(v - ps, blocks)
  {
  }

  lemma NoRepeatSplit(a: seq<PageNo>, b: seq<PageNo>)
    ensures NoRepeat(a + b) <==> NoRepeat(a) && NoRepeat(b) && (forall p <- a :: p !in b)
  {
    var ab := a + b;
    if NoRepeat(ab) {
      forall i, j | 0 <= i < j < |a| ensures a[i] != a[j] { assert ab[i] != ab[j]; }
      forall i, j | 0 <= i < j < |b| ensures b[i] != b[j] { assert ab[|a| + i] != ab[|a| + j]; }
      forall i, j | 0 <= i < |a| && 0 <= j < |b| ensures a[i] != b[j] { assert ab[i] != ab[|a| + j]; }
    }
    if NoRepeat(a) && NoRepeat(b) && (forall p <- a :: p !in b) {
      forall i, j | 0 <= i < j < |ab| ensures ab[i] != ab[j] {
        if i < |a| <= j {
          assert a[i] in a && b[j - |a|] in b;
        } else if |a| <= i {
          assert b[i - |a|] != b[j - |a|];
        } else {
          assert a[i] != a[j];
        }
      }
    }
  }

  /** The pages up to range `i` repeat only if those before it do or the range meets them. */
  lemma RepeatStep(ranges: seq<Range>, i: nat)
    requires RangesOk(ranges) && i < |ranges| && InRange(ranges[i])
    ensures NoRepeat(PageList(ranges[..i + 1])) <==>
            NoRepeat(PageList(ranges[..i])) && Pages(ranges[..i]) !! RangeSet(ranges[i], ranges[i].count)
  {
    PagesStep(ranges, i);
    var r := ranges[i];
    assert NoRepeat(RangeList(r, r.count));
    assert Pages(ranges[..i]) !! RangeSet(r, r.count) <==> forall p <- PageList(ranges[..i]) :: p !in RangeList(r, r.count) by {
      assert forall p <- PageList(ranges[..i]) :: p in Pages(ranges[..i]);
    }
    NoRepeatSplit(PageList(ranges[..i]), RangeList(r, r.count));
  }

  lemma {:induction false} PrefixNoRepeat(ranges: seq<Range>, n: nat)
    requires RangesOk(ranges) && n <= |ranges|
    ensures NoRepeat(PageList(ranges)) ==> NoRepeat(PageList(ranges[..n]))
  {
    if n < |ranges| {
      var front := ranges[..|ranges| - 1];
      assert front[..n] == ranges[..n] && ranges[..|ranges| - 1 + 1] == ranges;
      PagesStep(ranges, |ranges| - 1);
      RepeatStep(ranges, |ranges| - 1);
      PrefixNoRepeat(front, n);
    } else {
      assert ranges[..n] == ranges;
    }
  }

  lemma Minus(v: Translation, a: set<PageNo>, b: set<PageNo>)
    ensures v - {} == v && v - a - b == v - (a + b)
    ensures a !! v.Keys ==> v - a == v
    ensures a !! v.Keys ==> MapPages(v, a) - a == v
  {
  }

  lemma NotInBlocks(ps: set<PageNo>, all: set<PageNo>, blocks: set<U27>)
    requires ps <= all && BlocksOf(all) !! blocks
    ensures forall p <- ps :: p / 512 !in blocks
  {
    forall p <- ps ensures p / 512 !in blocks { assert BlockOf(p) in BlocksOf(all); }
  }

  lemma RangeSetGrows(r: Range, n: nat)
    requires InRange(r) && n <= r.count
    ensures RangeSet(r, n) <= RangeSet(r, r.count)
  {
    forall p <- RangeSet(r, n) ensures p in RangeSet(r, r.count) {
      var k :| 0 <= k < n && RangeList(r, n)[k] == p;
      assert RangeList(r, r.count)[k] == p;
    }
  }

  lemma NewInRange(r: Range, n: nat)
    requires InRange(r) && n < r.count
    ensures PageAt(r, n) !in RangeSet(r, n)
  {
  }

  lemma MapOnePage(v: Translation, p: PageNo)
    ensures MapPages(v, {p}) == v[p := Borrowed(p)]
  {
  }

  lemma MapPagesTwice(v: Translation, a: set<PageNo>, b: set<PageNo>)
    ensures MapPages(MapPages(v, a), b) == MapPages(v, a + b)
    ensures MapPages(v, {}) == v
    ensures MapPages(v, a).Keys == v.Keys + a
  {
  }

  lemma NoPages()
    ensures Pages([]) == {} && BlocksOf({}) == {} && NoRepeat(PageList([]))
  {
  }

  lemma NoRange(r: Range)
    requires InRange(r)
    ensures RangeSet(r, 0) == {} && RangeList(r, 0) == []
  {
  }

  lemma PageInBlocks(ps: set<PageNo>, p: PageNo)
    ensures p in ps ==> p / 512 in BlocksOf(ps)
    ensures BlocksOf({p}) == {p / 512}
  {
    assert BlockOf(p) == p / 512;
  }

  lemma BlocksOfUnion(a: set<PageNo>, b: set<PageNo>)
    ensures BlocksOf(a + b) == BlocksOf(a) + BlocksOf(b)
  {
  }
}
