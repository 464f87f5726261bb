/** The hypervisor heap (src/mm/allocator.rs): a bump allocator whose freed pages form a list
linked through their own first words. */
module Allocator {
  import opened Descriptor
  import opened PageTable

  const TWO64 := 0x1_0000_0000_0000_0000

  /** An allocated stretch of bytes. */
  datatype Region = Region(start: nat, size: nat)

  predicate Disjoint(a: Region, b: Region)
  {
    a.start + a.size <= b.start || b.start + b.size <= a.start
  }

  function PageRegion(p: PageNo): Region { Region(p * 4096, 4096) }

  function RoundDown(x: nat, align: nat): nat
    requires align > 0
  {
    x / align * align
  }

  function RoundUp(x: nat, align: nat): nat
    requires align > 0
  {
    RoundDown(x + align - 1, align)
  }

  /** Whole pages between the bump pointer and the end of the heap. */
  ghost function PagesLeft(next: nat, end: nat): nat
  {
    if RoundUp(next, 4096) <= end then (end - RoundUp(next, 4096)) / 4096 else 0
  }

  lemma BumpPages(next: nat, end: nat)
    ensures var a := RoundUp(next, 4096);
            if a + 4096 <= end then PagesLeft(next, end) == 1 + PagesLeft(a + 4096, end)
            else PagesLeft(next, end) == 0
  {
  }

  ghost function Total(rs: seq<Region>): nat
  {
    if rs == [] then 0 else rs[0].size + Total(rs[1..])
  }

  lemma {:induction false} TotalSplit(a: seq<Region>, b: seq<Region>)
    ensures Total(a + b) == Total(a) + Total(b)
  {
    if a == [] {
      assert a + b == b;
    } else {
      assert (a + b)[1..] == a[1..] + b;
      TotalSplit(a[1..], b);
    }
  }

  /** `alloc_aligned` on 64-bit registers: the region's start and the new bump pointer. */
  function Bump(next: nat, end: nat, size: nat, align: nat): Option<(nat, nat)>
    requires align > 0
  {
    var aligned := AlignUp(next, align);
    var newNext := WrapAdd(aligned, size);
    if newNext > end then None else Some((aligned, newNext))
  }

  /** Rounding up on 64-bit registers. */
  function AlignUp(next: nat, align: nat): nat
    requires align > 0
  {
    RoundDown((next + align - 1) % TWO64, align)
  }

  function WrapAdd(x: nat, y: nat): nat { (x + y) % TWO64 }

  lemma AlignUpIs(next: nat, align: nat)
    requires align > 0 && next + align - 1 < TWO64
    ensures AlignUp(next, align) == RoundUp(next, align)
  {
  }

  /** Neither addition leaves 64 bits. */
  predicate NoWrap(next: nat, size: nat, align: nat)
    requires align > 0
  {
    next + align - 1 < TWO64 && RoundUp(next, align) + size < TWO64
  }

  lemma NoWrapMeans(next: nat, size: nat, align: nat)
    requires align > 0 && NoWrap(next, size, align)
    ensures AlignUp(next, align) == RoundUp(next, align) && WrapAdd(AlignUp(next, align), size) == RoundUp(next, align) + size
    ensures next <= RoundUp(next, align) && RoundUp(next, align) % align == 0
  {
    hide RoundUp;
    RoundUpBounds(next, align);
    AlignUpIs(next, align);
  }

  /** A granted region lies between the old bump pointer and the end of the heap exactly when
      neither addition wraps. */
  lemma BumpInsideHeap(next: nat, end: nat, size: nat, align: nat)
    requires align > 0 && next <= end < TWO64 && size < TWO64
    requires align < TWO64 && TWO64 % align == 0
    requires Bump(next, end, size, align).Some?
    ensures var (start, newNext) := Bump(next, end, size, align).value;
            (next <= start && start + size <= end) <==> NoWrap(next, size, align)
    ensures NoWrap(next, size, align) ==>
              Bump(next, end, size, align).value == (RoundUp(next, align), RoundUp(next, align) + size)
  {
    hide RoundUp;
    RoundUpBounds(next, align);
    if next + align - 1 >= TWO64 {
      assert (next + align - 1) % TWO64 == next + align - 1 - TWO64;
      DivLe((next + align - 1) % TWO64, align);
    } else {
      AlignUpIs(next, align);
    }
  }

  lemma DivLe(x: nat, align: nat)
    requires align > 0
    ensures x / align * align <= x
    ensures x < x / align * align + align
  {
    assert x == x / align * align + x % align;
  }

  lemma RoundUpBounds(x: nat, align: nat)
    requires align > 0
    ensures x <= RoundUp(x, align) < x + align
    ensures RoundUp(x, align) % align == 0
  {
    DivLe(x + align - 1, align);
    MulMod((x + align - 1) / align, align);
  }

  lemma MulMod(k: nat, a: nat)
    requires a > 0
    ensures k * a % a == 0
  {
    var q := k * a / a;
    DivLe(k * a, a);
    if q < k { MulLe(q + 1, k, a); }
    if k < q { MulLe(k + 1, q, a); }
  }

  lemma MulLe(x: nat, y: nat, a: nat)
    requires x <= y
    ensures x * a <= y * a
  {
  }

  /** Dropping one allocation from a list of pairwise disjoint ones. */
  ghost function Without(rs: seq<Region>, k: nat): seq<Region>
    requires k < |rs|
  {
    rs[..k] + rs[k + 1..]
  }

  ghost predicate PairwiseDisjoint(rs: seq<Region>)
  {
    forall i, j :: 0 <= i < j < |rs| ==> Disjoint(rs[i], rs[j])
  }

  function NextFree(free: seq<PageNo>, k: nat): PageNo { if k + 1 < |free| then free[k + 1] else 0 }

  /** The list threaded through the first word of each page of `free` starts at `head`. */
  ghost predicate ListLinked(mem: Mem, head: PageNo, free: seq<PageNo>)
  {
    && head == (if free == [] then 0 else free[0])
    && (forall k: nat :: k < |free| ==> LinkAt(mem, free, k))
  }

  ghost predicate LinkAt(mem: Mem, free: seq<PageNo>, k: nat)
    requires k < |free|
  {
    free[k] in mem && |mem[free[k]]| == 512 && mem[free[k]][0] == AddrWord(NextFree(free, k))
  }

  ghost predicate Distinct(free: seq<PageNo>)
  {
    forall i, j :: 0 <= i < j < |free| ==> free[i] != free[j]
  }

  lemma AddrWordPage(p: PageNo)
    ensures AddrWord(p).Page() == p
  {
  }

  lemma LinkedPop(mem: Mem, head: PageNo, free: seq<PageNo>, content: seq<Pte>)
    requires ListLinked(mem, head, free) && Distinct(free) && free != []
    ensures ListLinked(mem[free[0] := content], At(mem, free[0], 0).Page(), free[1..])
    ensures Distinct(free[1..])
  {
    var rest, mem' := free[1..], mem[free[0] := content];
    assert LinkAt(mem, free, 0);
    AddrWordPage(NextFree(free, 0));
    forall k: nat | k < |rest| ensures LinkAt(mem', rest, k) {
      assert LinkAt(mem, free, k + 1);
    }
  }

  lemma LinkedPush(mem: Mem, head: PageNo, free: seq<PageNo>, page: PageNo)
    requires ListLinked(mem, head, free) && Distinct(free)
    requires page !in free && page in mem && |mem[page]| == 512
    ensures ListLinked(mem[page := mem[page][0 := AddrWord(head)]], page, [page] + free)
    ensures Distinct([page] + free)
  {
    var all := [page] + free;
    var mem' := mem[page := mem[page][0 := AddrWord(head)]];
    forall k: nat | k < |all| ensures LinkAt(mem', all, k) {
      if k > 0 { assert LinkAt(mem, free, k - 1); }
    }
  }

  lemma AppendDisjoint(rs: seq<Region>, r: Region)
    requires PairwiseDisjoint(rs) && forall s <- rs :: Disjoint(s, r)
    ensures PairwiseDisjoint(rs + [r])
    ensures Total(rs + [r]) == Total(rs) + r.size
    ensures forall s <- rs + [r] :: s == r || s in rs
  {
    TotalSplit(rs, [r]);
  }

  /** Regions lie between `start` and `next` and do not overlap. */
  ghost predicate RegionsOk(start: nat, next: nat, rs: seq<Region>)
  {
    (forall r <- rs :: start <= r.start && r.start + r.size <= next) && PairwiseDisjoint(rs)
  }

  /** The free list is acyclic, lies between `start` and `next` and meets no region. */
  ghost predicate FreeOk(start: nat, next: nat, mem: Mem, head: PageNo, free: seq<PageNo>, rs: seq<Region>)
  {
    && ListLinked(mem, head, free)
    && Distinct(free)
    && (forall p <- free :: start <= p * 4096 && p * 4096 + 4096 <= next)
    && (forall p <- free, r <- rs :: Disjoint(PageRegion(p), r))
  }

  /** Every whole page of the heap is backed by memory. */
  ghost predicate Backed(start: nat, end: nat, mem: Mem)
  {
    forall p: PageNo :: start <= p * 4096 && p * 4096 + 4096 <= end ==> p in mem && |mem[p]| == 512
  }

  lemma PopKeeps(start: nat, next: nat, mem: Mem, head: PageNo, free: seq<PageNo>, rs: seq<Region>, content: seq<Pte>)
    requires RegionsOk(start, next, rs) && FreeOk(start, next, mem, head, free, rs) && free != []
    ensures PairwiseDisjoint(rs)
    ensures RegionsOk(start, next, rs + [PageRegion(head)])
    ensures FreeOk(start, next, mem[head := content], At(mem, head, 0).Page(), free[1..], rs + [PageRegion(head)])
    ensures forall r <- rs :: Disjoint(r, PageRegion(head))
  {
    assert head in free;
    forall r <- rs ensures Disjoint(r, PageRegion(head)) { assert Disjoint(PageRegion(head), r); }
    LinkedPop(mem, head, free, content);
    AppendDisjoint(rs, PageRegion(head));
    forall p <- free[1..] ensures p in free && p != head {
      var k :| 0 <= k < |free[1..]| && free[1..][k] == p;
      assert free[k + 1] == p;
    }
  }

  /** Writing an outstanding page leaves the free list alone. */
  lemma WriteKeepsFree(start: nat, next: nat, mem: Mem, head: PageNo, free: seq<PageNo>, rs: seq<Region>, t: PageNo, content: seq<Pte>)
    requires FreeOk(start, next, mem, head, free, rs) && PageRegion(t) in rs
    ensures FreeOk(start, next, mem[t := content], head, free, rs)
  {
    var mem' := mem[t := content];
    forall k: nat | k < |free| ensures LinkAt(mem', free, k) {
      assert LinkAt(mem, free, k) && free[k] in free;
      assert Disjoint(PageRegion(free[k]), PageRegion(t));
    }
  }

  lemma NoFree(mem: Mem, head: PageNo, free: seq<PageNo>, start: nat)
    requires ListLinked(mem, head, free) && head == 0 && 0 < start && forall p <- free :: start <= p * 4096
    ensures free == []
  {
    assert forall k :: 0 <= k < |free| ==> free[k] in free;
  }

  /** A head that is not null is the first page of the list. */
  lemma HeadIs(start: nat, next: nat, mem: Mem, head: PageNo, free: seq<PageNo>, rs: seq<Region>)
    requires FreeOk(start, next, mem, head, free, rs) && head != 0
    ensures free != [] && free[0] == head && head in mem && |mem[head]| == 512
  {
    assert free != [] ==> LinkAt(mem, free, 0);
  }

  lemma PageSizeIsPow2()
    ensures IsPow2(4096)
  {
    assert IsPow2(64);
  }

  class BumpAllocator {
    const start: nat
    const end: nat
    var next: nat
    var bytesOut: nat
    var freeHead: PageNo
    /** Physical memory. */
    var mem: Mem
    /** The regions handed out and not freed, oldest first. */
    ghost var outstanding: seq<Region>
    /** The free list, head first. */
    ghost var free: seq<PageNo>

    ghost predicate Valid()
      reads this
    {
      && 0 < start <= next <= end <= PAGES * 4096
      && RegionsOk(start, next, outstanding)
      && FreeOk(start, next, mem, freeHead, free, outstanding)
      && bytesOut == Total(outstanding)
      && Backed(start, end, mem)
    }

    ghost predicate IsPage(p: PageNo)
      reads this
    {
      PageRegion(p) in outstanding
    }

    /** How many more calls of `AllocPage` succeed. */
    ghost function Available(): nat
      reads this
    {
      |free| + PagesLeft(next, end)
    }

    constructor (start: nat, size: nat, mem: Mem)
      requires 0 < start && start + size <= PAGES * 4096
      requires Backed(start, start + size, mem)
      ensures Valid() && outstanding == [] && free == [] && this.mem == mem
      ensures this.start == start && this.end == start + size && next == start
    {
      this.start, this.end, this.next := start, start + size, start;
      this.bytesOut, this.freeHead, this.mem := 0, 0, mem;
      this.outstanding, this.free := [], [];
    }

    /** A region of `size` bytes at a multiple of `align`, disjoint from all others if no addition wraps. */
    method AllocAligned(size: nat, align: nat) returns (r: Option<nat>)
      requires Valid() && IsPow2(align) && align < TWO64 && size < TWO64
      modifies this`next, this`bytesOut, this`outstanding
      ensures match Bump(old(next), end, size, align)
              case None => r == None && next == old(next) && outstanding == old(outstanding)
              case Some((at, newNext)) => r == Some(at) && next == newNext && outstanding == old(outstanding) + [Region(at, size)]
      ensures NoWrap(old(next), size, align) ==>
                && Valid()
                && (r.None? <==> RoundUp(old(next), align) + size > end)
                && (r.Some? ==> r.value == RoundUp(old(next), align) && r.value % align == 0 && next == r.value + size)
    {
      assert align > 0;
      hide RoundUp, AlignUp, WrapAdd, NoWrap, IsPow2, Backed, ListLinked, Distinct;
      if NoWrap(next, size, align) { NoWrapMeans(next, size, align); }
      var aligned := AlignUp(next, align);
      var newNext := WrapAdd(aligned, size);
      if newNext > end {
        return None;
      }
      next := newNext;
      bytesOut := bytesOut + size;
      if NoWrap(old(next), size, align) { AppendDisjoint(outstanding, Region(aligned, size)); }
      outstanding := outstanding + [Region(aligned, size)];
      r := Some(aligned);
    }

    /** Pops the free list. */
    method PopFree() returns (page: PageNo)
      requires Valid() && freeHead != 0
      modifies this
      ensures Valid() && next == old(next)
      ensures old(free) == [page] + free
      ensures outstanding == old(outstanding) + [PageRegion(page)]
      ensures mem == old(mem)[page := EMPTY] && page > 0
    {
      hide RoundUp, Disjoint, PairwiseDisjoint, RegionsOk, FreeOk;
      page := freeHead;
      HeadIs(start, next, mem, freeHead, free, outstanding);
      var link := mem[page][0].Page();
      PopKeeps(start, next, mem, page, free, outstanding, EMPTY);
      AppendDisjoint(outstanding, PageRegion(page));
      freeHead, mem, bytesOut := link, mem[page := EMPTY], bytesOut + 4096;
      outstanding, free := outstanding + [PageRegion(page)], free[1..];
    }

    /** A page disjoint from every outstanding region; fails only when none is left. */
    method AllocPage() returns (r: Option<PageNo>)
      requires Valid()
      modifies this
      ensures Valid()
      ensures r.Some? <==> old(Available()) > 0
      ensures r.None? ==> mem == old(mem) && outstanding == old(outstanding) && Available() == 0
      ensures r.Some? ==>
                && r.value > 0
                && outstanding == old(outstanding) + [PageRegion(r.value)]
                && Available() == old(Available()) - 1
                && r.value in mem && |mem[r.value]| == 512
                && forall p <- old(mem) :: p != r.value ==> p in mem && mem[p] == old(mem[p])
    {
      if freeHead != 0 {
        var page := PopFree();
        return Some(page);
      }
      r := BumpPage();
    }

    /** The page above the bump pointer. */
    method BumpPage() returns (r: Option<PageNo>)
      requires Valid() && freeHead == 0
      modifies this`next, this`bytesOut, this`outstanding
      ensures Valid()
      ensures r.None? ==> outstanding == old(outstanding) && Available() == old(Available()) == 0
      ensures r.Some? ==>
                && r.value > 0 && r.value in mem && |mem[r.value]| == 512
                && outstanding == old(outstanding) + [PageRegion(r.value)]
                && Available() == old(Available()) - 1
    {
      NoFree(mem, freeHead, free, start);
      BumpPages(next, end);
      PageSizeIsPow2();
      var a := AllocAligned(4096, 4096);
      if a.Some? {
        assert a.value == a.value / 4096 * 4096;
        r := Some(a.value / 4096);
        assert PageRegion(r.value) == Region(a.value, 4096);
      } else {
        r := None;
      }
    }

    /** Writes an allocated page. */
    method StorePage(t: PageNo, content: seq<Pte>)
      requires Valid() && IsPage(t) && |content| == 512
      modifies this`mem
      ensures Valid() && mem == old(mem)[t := content] && Available() == old(Available())
    {
      WriteKeepsFree(start, next, mem, freeHead, free, outstanding, t, content);
      mem := mem[t := content];
    }

    /** Writes one word of an allocated page. */
    method Store(t: PageNo, i: U9, e: Pte)
      requires Valid() && IsPage(t) && t in mem && |mem[t]| == 512
      modifies this`mem
      ensures Valid() && mem == Write(old(mem), t, i, e) && Available() == old(Available())
    {
      WriteKeepsFree(start, next, mem, freeHead, free, outstanding, t, mem[t][i := e]);
      mem := Write(mem, t, i, e);
    }

    /** Returns an outstanding page to the list. */
    method FreePage(page: PageNo, ghost k: nat)
      requires Valid()
      requires k < |outstanding| && outstanding[k] == PageRegion(page)
      modifies this
      ensures Valid()
      ensures freeHead == page && free == [page] + old(free) && next == old(next)
      ensures outstanding == Without(old(outstanding), k)
      ensures mem == old(mem)[page := old(mem)[page][0 := AddrWord(old(freeHead))]]
    {
      ghost var was := outstanding;
      assert IsPage(page);
      forall p <- free ensures p != page { assert Disjoint(PageRegion(p), was[k]); }
      LinkedPush(mem, freeHead, free, page);
      mem := mem[page := mem[page][0 := AddrWord(freeHead)]];
      freeHead := page;
      WithoutDisjoint(was, k);
      bytesOut := bytesOut - 4096;
      free := [page] + free;
      outstanding := Without(was, k);
    }
  }

  lemma WithoutDisjoint(rs: seq<Region>, k: nat)
    requires k < |rs| && PairwiseDisjoint(rs)
    ensures PairwiseDisjoint(Without(rs, k))
    ensures Total(Without(rs, k)) == Total(rs) - rs[k].size
    ensures forall r <- Without(rs, k) :: r in rs && Disjoint(rs[k], r)
  {
    assert rs == rs[..k] + [rs[k]] + rs[k + 1..];
    TotalSplit(rs[..k] + [rs[k]], rs[k + 1..]);
    TotalSplit(rs[..k], [rs[k]]);
    TotalSplit(rs[..k], rs[k + 1..]);
  }

}
