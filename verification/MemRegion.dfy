/** The memory region descriptors of tables 5.19 to 5.25 of DEN0077A: parsing
(src/ffa/descriptors.rs:116-199) and building (src/ffa/descriptors.rs:208-247). */
module MemRegion {
  import opened Descriptor
  import opened Sizes
  import opened ByteBuffer

  const MAX_ADDR_RANGES := 16
  /** The packed size of the header; its comment says 48. */
  const REGION_SIZE := 44
  const ACCESS_SIZE := 16
  const COMPOSITE_SIZE := 16
  const RANGE_SIZE := 16

  datatype AddrRange = AddrRange(address: nat, pages: nat)

  datatype Region = Region(sender: nat, receiver: nat, flags: nat, ranges: seq<AddrRange>, totalPages: nat)

  // ---- what a descriptor says ----

  /** Where the composite descriptor starts, if the bytes before say so within bounds. */
  function Composite(buf: seq<Byte>): Option<nat>
  {
    if |buf| < REGION_SIZE || At(buf, 32, 4) != 1 then None
    else
      var access := At(buf, 36, 4);
      if access + ACCESS_SIZE > |buf| then None
      else
        var comp := At(buf, access + 4, 4);
        if comp + COMPOSITE_SIZE > |buf| || At(buf, comp + 4, 4) == 0 then None else Some(comp)
  }

  function RangeOffset(comp: nat, i: nat): nat { comp + COMPOSITE_SIZE + i * RANGE_SIZE }

  /** Range `i` lies within the buffer and is page-aligned. */
  predicate RangeOk(buf: seq<Byte>, comp: nat, i: nat)
  {
    RangeOffset(comp, i) + RANGE_SIZE <= |buf| && At(buf, RangeOffset(comp, i), 8) % 4096 == 0
  }

  function RangeAt(buf: seq<Byte>, comp: nat, i: nat): AddrRange
    requires RangeOk(buf, comp, i)
  {
    AddrRange(At(buf, RangeOffset(comp, i), 8), At(buf, RangeOffset(comp, i) + 8, 4))
  }

  /** The number of ranges that are read. */
  function Count(buf: seq<Byte>, comp: nat): nat
    requires comp + COMPOSITE_SIZE <= |buf|
  {
    Min(At(buf, comp + 4, 4), MAX_ADDR_RANGES)
  }

  ghost predicate Accepts(buf: seq<Byte>)
  {
    Composite(buf).Some? && forall i: nat :: i < Count(buf, Composite(buf).value) ==> RangeOk(buf, Composite(buf).value, i)
  }

  ghost predicate Says(buf: seq<Byte>, r: Region)
    requires Accepts(buf)
  {
    var comp := Composite(buf).value;
    && r.sender == At(buf, 0, 2) && r.flags == At(buf, 8, 4) && r.receiver == At(buf, At(buf, 36, 4), 2) && r.totalPages == At(buf, comp, 4)
    && |r.ranges| == Count(buf, comp)
    && forall i: nat :: i < |r.ranges| ==> r.ranges[i] == RangeAt(buf, comp, i)
  }

  // ---- the parser ----

  /** A read: it stays below `total`. */
  function Read(buf: seq<Byte>, total: nat, off: nat, n: nat): nat
    requires off + n <= total <= |buf|
  {
    At(buf[..total], off, n)
  }

  /** `parse_mem_region` on a buffer of any bytes. */
  method ParseMemRegion(buf: seq<Byte>, total: nat) returns (r: Option<Region>)
    requires total <= |buf|
    ensures r.Some? <==> Accepts(buf[..total])
    ensures r.Some? ==> Says(buf[..total], r.value) && 1 <= |r.value.ranges| <= MAX_ADDR_RANGES
    ensures r.Some? ==> forall a <- r.value.ranges :: a.address % 4096 == 0
  {
    hide At, RangeAt;
    if total < REGION_SIZE { return None; }
    var sender, flags := Read(buf, total, 0, 2), Read(buf, total, 8, 4);
    var receiverCount, access := Read(buf, total, 32, 4), Read(buf, total, 36, 4);
    if receiverCount == 0 || receiverCount > 1 { return None; }
    if access + ACCESS_SIZE > total { return None; }
    var receiver, comp := Read(buf, total, access, 2), Read(buf, total, access + 4, 4);
    var compEnd := comp + COMPOSITE_SIZE;
    if compEnd > total { return None; }
    var totalPages, rangeCount := Read(buf, total, comp, 4), Read(buf, total, comp + 4, 4);
    if rangeCount == 0 { return None; }
    assert Composite(buf[..total]) == Some(comp);
    var ranges := ParseRanges(buf, total, comp);
    if ranges.None? { return None; }
    return Some(Region(sender, receiver, flags, ranges.value, totalPages));
  }

  method ParseRanges(buf: seq<Byte>, total: nat, comp: nat) returns (r: Option<seq<AddrRange>>)
    requires comp + COMPOSITE_SIZE <= total <= |buf| && At(buf[..total], comp + 4, 4) > 0
    ensures r.Some? <==> forall i: nat :: i < Count(buf[..total], comp) ==> RangeOk(buf[..total], comp, i)
    ensures r.Some? ==> |r.value| == Count(buf[..total], comp) && forall i: nat :: i < |r.value| ==> r.value[i] == RangeAt(buf[..total], comp, i)
    ensures r.Some? ==> forall a <- r.value :: a.address % 4096 == 0
  {
    hide At;
    var ranges := [];
    var count := Min(Read(buf, total, comp + 4, 4), MAX_ADDR_RANGES);
    for i := 0 to count
      invariant |ranges| == i && forall k: nat :: k < i ==> RangeOk(buf[..total], comp, k) && ranges[k] == RangeAt(buf[..total], comp, k)
    {
      var off := comp + COMPOSITE_SIZE + i * RANGE_SIZE;
      assert off == RangeOffset(comp, i);
      ghost var ok := RangeOk(buf[..total], comp, i);
      if off + RANGE_SIZE > total { return None; }
      var address, pages := Read(buf, total, off, 8), Read(buf, total, off + 8, 4);
      if address % 4096 != 0 { return None; }
      ranges := ranges + [AddrRange(address, pages)];
    }
    return Some(ranges);
  }

  // ---- the builder ----

  function PageSum(ranges: seq<AddrRange>): nat
  {
    if ranges == [] then 0 else PageSum(ranges[..|ranges| - 1]) + ranges[|ranges| - 1].pages
  }

  lemma {:induction false} PageSumAdds(a: seq<AddrRange>, b: seq<AddrRange>, r: AddrRange)
    ensures PageSum([]) == 0 && PageSum([r]) == r.pages && PageSum(a + b) == PageSum(a) + PageSum(b)
  {
    assert [r][..0] == [];
    if b == [] {
      assert a + b == a;
    } else {
      assert (a + b)[..|a + b| - 1] == a + b[..|b| - 1];
      PageSumAdds(a, b[..|b| - 1], r);
    }
  }

  /** Ranges that fit their fields. */
  predicate Fits(ranges: seq<AddrRange>)
  {
    forall a <- ranges :: a.address < 0x1_0000_0000_0000_0000 && a.pages < 0x1_0000_0000
  }

  const COMP_OFF := 64

  /** The fields that the builder writes. */
  ghost predicate Wrote(buf: seq<Byte>, sender: nat, receiver: nat, ranges: seq<AddrRange>)
  {
    && |buf| >= RangeOffset(COMP_OFF, |ranges|)
    && HeaderIs(buf, sender, receiver, PageSum(ranges), |ranges|)
    && forall i: nat :: i < |ranges| ==> RangeIs(buf, i, ranges[i])
  }

  ghost predicate HeaderIs(buf: seq<Byte>, sender: nat, receiver: nat, pages: nat, count: nat)
    requires |buf| >= 80
  {
    && At(buf, 0, 2) == sender && At(buf, 8, 4) == 0 && At(buf, 32, 4) == 1 && At(buf, 36, 4) == 48
    && At(buf, 48, 2) == receiver && At(buf, 52, 4) == COMP_OFF && At(buf, 64, 4) == pages && At(buf, 68, 4) == count
  }

  ghost predicate RangeIs(buf: seq<Byte>, i: nat, a: AddrRange)
  {
    && RangeOffset(COMP_OFF, i) + RANGE_SIZE <= |buf|
    && At(buf, RangeOffset(COMP_OFF, i), 8) == a.address && At(buf, RangeOffset(COMP_OFF, i) + 8, 4) == a.pages
  }

  /** Parsing what was built gives back sender, receiver, ranges and page total, for 1 to 16 aligned
      ranges. */
  lemma RoundTrip(buf: seq<Byte>, sender: nat, receiver: nat, ranges: seq<AddrRange>, r: Region)
    requires Wrote(buf, sender, receiver, ranges) && 1 <= |ranges| <= MAX_ADDR_RANGES && forall a <- ranges :: a.address % 4096 == 0
    ensures Accepts(buf)
    ensures Says(buf, r) <==> r == Region(sender, receiver, 0, ranges, PageSum(ranges))
  {
    hide At;
    assert Composite(buf) == Some(COMP_OFF) && Count(buf, COMP_OFF) == |ranges|;
    forall i: nat | i < |ranges| ensures RangeOk(buf, COMP_OFF, i) && RangeAt(buf, COMP_OFF, i) == ranges[i] {
      assert RangeIs(buf, i, ranges[i]) && ranges[i] in ranges;
      assert RangeOffset(COMP_OFF, i) + RANGE_SIZE <= RangeOffset(COMP_OFF, |ranges|);
    }
    if Says(buf, r) { assert r.ranges == ranges; }
  }

  /** An unaligned range is refused. */
  lemma UnalignedRefused(buf: seq<Byte>, sender: nat, receiver: nat, ranges: seq<AddrRange>, k: nat)
    requires Wrote(buf, sender, receiver, ranges) && k < |ranges| && k < MAX_ADDR_RANGES && ranges[k].address % 4096 != 0
    ensures !Accepts(buf)
  {
    hide At;
    assert RangeIs(buf, k, ranges[k]);
    assert !RangeOk(buf, COMP_OFF, k);
  }

  /** `write_bytes` with zero. */
  method Zero(buf: array<Byte>, n: nat)
    requires n <= buf.Length
    modifies buf
    ensures forall i :: 0 <= i < n ==> buf[i] == 0
  {
    for k := 0 to n
      invariant forall i :: 0 <= i < k ==> buf[i] == 0
    {
      buf[k] := 0;
    }
  }

  /** `build_test_descriptor`. */
  method BuildTestDescriptor(buf: array<Byte>, sender: nat, receiver: nat, ranges: seq<AddrRange>) returns (len: nat)
    requires buf.Length >= 128 && buf.Length >= RangeOffset(COMP_OFF, |ranges|)
    requires sender < 0x1_0000 && receiver < 0x1_0000 && Fits(ranges) && PageSum(ranges) < 0x1_0000_0000 && |ranges| < 0x1_0000_0000
    modifies buf
    ensures len == RangeOffset(COMP_OFF, |ranges|) && Wrote(buf[..len], sender, receiver, ranges)
  {
    hide At, Pow256, PageSum;
    Powers();
    Zero(buf, 128);
    ZeroFlags(buf[..]);
    WriteLe(buf, 0, 2, sender);
    WriteLe(buf, 32, 4, 1);
    WriteLe(buf, 36, 4, 48);
    WriteLe(buf, 48, 2, receiver);
    WriteLe(buf, 52, 4, COMP_OFF);
    var pages := SumPages(ranges);
    WriteLe(buf, 64, 4, pages);
    WriteLe(buf, 68, 4, |ranges|);
    assert HeaderIs(buf[..], sender, receiver, pages, |ranges|);
    BuildRanges(buf, sender, receiver, ranges, pages);
    len := COMP_OFF + 16 + |ranges| * 16;
    Shorten(buf[..], len, sender, receiver, ranges, pages);
  }

  method SumPages(ranges: seq<AddrRange>) returns (s: nat)
    ensures s == PageSum(ranges)
  {
    s := 0;
    for i := 0 to |ranges|
      invariant s == PageSum(ranges[..i])
    {
      assert ranges[..i + 1][..i] == ranges[..i];
      s := s + ranges[i].pages;
    }
    assert ranges[..|ranges|] == ranges;
  }

  method BuildRanges(buf: array<Byte>, ghost sender: nat, ghost receiver: nat, ranges: seq<AddrRange>, ghost pages: nat)
    requires buf.Length >= 80 && buf.Length >= RangeOffset(COMP_OFF, |ranges|) && Fits(ranges)
    requires HeaderIs(buf[..], sender, receiver, pages, |ranges|)
    modifies buf
    ensures HeaderIs(buf[..], sender, receiver, pages, |ranges|)
    ensures forall i: nat :: i < |ranges| ==> RangeIs(buf[..], i, ranges[i])
  {
    hide At, Pow256;
    Powers();
    for i := 0 to |ranges|
      invariant HeaderIs(buf[..], sender, receiver, pages, |ranges|)
      invariant forall k: nat :: k < i ==> RangeIs(buf[..], k, ranges[k])
    {
      assert ranges[i] in ranges;
      var off := COMP_OFF + 16 + i * 16;
      assert off == RangeOffset(COMP_OFF, i);
      ghost var before := buf[..];
      WriteLe(buf, off, 8, ranges[i].address);
      WriteLe(buf, off + 8, 4, ranges[i].pages);
      forall k: nat | k < i ensures RangeIs(buf[..], k, ranges[k]) {
        assert RangeIs(before, k, ranges[k]) && RangeOffset(COMP_OFF, k) + RANGE_SIZE <= off;
      }
    }
  }

  lemma ZeroFlags(buf: seq<Byte>)
    requires |buf| >= 128 && forall i :: 0 <= i < 128 ==> buf[i] == 0
    ensures At(buf, 8, 4) == 0
  {
    LeZeros(buf[8..12]);
  }

  /** The fields lie below the length. */
  lemma Shorten(buf: seq<Byte>, len: nat, sender: nat, receiver: nat, ranges: seq<AddrRange>, pages: nat)
    requires len == RangeOffset(COMP_OFF, |ranges|) <= |buf| && HeaderIs(buf, sender, receiver, pages, |ranges|) && pages == PageSum(ranges)
    requires forall i: nat :: i < |ranges| ==> RangeIs(buf, i, ranges[i])
    ensures Wrote(buf[..len], sender, receiver, ranges)
  {
    hide At;
    var b := buf[..len];
    forall off: nat, n: nat | off + n <= len ensures At(b, off, n) == At(buf, off, n) { Prefix(buf, len, off, n); }
    forall i: nat | i < |ranges| ensures RangeIs(b, i, ranges[i]) {
      assert RangeIs(buf, i, ranges[i]) && RangeOffset(COMP_OFF, i) + RANGE_SIZE <= len;
    }
  }

  lemma Prefix(buf: seq<Byte>, len: nat, off: nat, n: nat)
    requires off + n <= len <= |buf|
    ensures At(buf[..len], off, n) == At(buf, off, n)
  {
    assert buf[..len][off..off + n] == buf[off..off + n];
  }
}
