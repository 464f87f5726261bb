/** When each call of the sharing protocol goes through, in terms of records, addresses and
translations; and that a share can always be brought to its end. */
module ShareReplies {
  import opened Descriptor
  import opened ShareProtocol
  import opened ShareInvariant
  import opened ShareRoundTrip
  import opened Proxy

  // ---- pages of a range list ----

  /** Page `k` of range `i`. */
  ghost predicate IsPageAt(ranges: seq<Range>, i: int, k: int, p: PageNo)
  {
    0 <= i < |ranges| && 0 <= k < ranges[i].count && p == ranges[i].base / 4096 + k
  }

  /** A page is in the list exactly when it is one of the `count` pages from the base of some range. */
  lemma {:induction false} InPages(ranges: seq<Range>, p: PageNo)
    requires RangesOk(ranges)
    ensures p in Pages(ranges) <==> exists i, k :: IsPageAt(ranges, i, k, p)
  {
    if ranges == [] {
      NoPages();
    } else {
      var n := |ranges| - 1;
      var front, last := ranges[..n], ranges[n];
      assert ranges[..n + 1] == ranges;
      PagesStep(ranges, n);
      InPages(front, p);
      if p in Pages(front) {
        var i, k :| IsPageAt(front, i, k, p);
        assert IsPageAt(ranges, i, k, p);
      }
      if p in RangeSet(last, last.count) {
        var k :| 0 <= k < last.count && RangeList(last, last.count)[k] == p;
        assert IsPageAt(ranges, n, k, p);
      }
      if i, k :| IsPageAt(ranges, i, k, p) {
        if i < n { assert IsPageAt(front, i, k, p); } else { assert RangeList(last, last.count)[k] == p; }
      }
    }
  }

  /** No page is in two ranges. */
  ghost predicate Apart(ranges: seq<Range>)
  {
    forall i, j, k, l, p :: i < j && IsPageAt(ranges, i, k, p) ==> !IsPageAt(ranges, j, l, p)
  }

  lemma {:induction false} ApartIsDistinct(ranges: seq<Range>)
    requires RangesOk(ranges)
    ensures NoRepeat(PageList(ranges)) <==> Apart(ranges)
  {
    if ranges == [] {
      NoPages();
    } else {
      var n := |ranges| - 1;
      var front := ranges[..n];
      assert ranges[..n + 1] == ranges && ranges[n] in ranges;
      PagesStep(ranges, n);
      RepeatStep(ranges, n);
      ApartIsDistinct(front);
      LastApart(ranges);
    }
  }

  lemma LastApart(ranges: seq<Range>)
    requires RangesOk(ranges) && ranges != [] && InRange(ranges[|ranges| - 1])
    ensures var n := |ranges| - 1;
            Apart(ranges) <==> Apart(ranges[..n]) && Pages(ranges[..n]) !! RangeSet(ranges[n], ranges[n].count)
  {
    var n := |ranges| - 1;
    var front, last := ranges[..n], ranges[n];
    forall i, k, p: PageNo | i < n ensures IsPageAt(front, i, k, p) <==> IsPageAt(ranges, i, k, p) {}
    forall p: PageNo
      ensures p in Pages(front) <==> exists i, k :: IsPageAt(front, i, k, p)
      ensures p in RangeSet(last, last.count) <==> exists k :: IsPageAt(ranges, n, k, p)
    {
      InPages(front, p);
      LastPages(ranges, p);
    }
    if Apart(ranges) {
      forall i, j, k, l, p | i < j && IsPageAt(front, i, k, p) ensures !IsPageAt(front, j, l, p) {
        assert !IsPageAt(ranges, j, l, p);
      }
      forall p <- Pages(front) ensures p !in RangeSet(last, last.count) {
        var i, k :| IsPageAt(front, i, k, p);
        forall l ensures !IsPageAt(ranges, n, l, p) { assert IsPageAt(ranges, i, k, p); }
      }
    }
    if Apart(front) && Pages(front) !! RangeSet(last, last.count) {
      forall i, j, k, l, p | i < j && IsPageAt(ranges, i, k, p) ensures !IsPageAt(ranges, j, l, p) {
        if i < n { assert IsPageAt(front, i, k, p) && p in Pages(front); }
        assert j < n ==> !IsPageAt(front, j, l, p);
      }
    }
  }

  lemma LastPages(ranges: seq<Range>, p: PageNo)
    requires ranges != [] && InRange(ranges[|ranges| - 1])
    ensures var n := |ranges| - 1;
            p in RangeSet(ranges[n], ranges[n].count) <==> exists k :: IsPageAt(ranges, n, k, p)
  {
    var n := |ranges| - 1;
    var last := ranges[n];
    if p in RangeSet(last, last.count) {
      var k :| 0 <= k < last.count && RangeList(last, last.count)[k] == p;
      assert IsPageAt(ranges, n, k, p);
    }
    if k :| IsPageAt(ranges, n, k, p) { assert RangeList(last, last.count)[k] == p; }
  }

  // ---- replies ----

  /** Every page of every range is mapped and owned. */
  ghost predicate Owns(v: Translation, ranges: seq<Range>)
  {
    forall i, k, p :: IsPageAt(ranges, i, k, p) ==> p in v && v[p].sw == OWNED
  }

  /** The first active record with the handle. */
  ghost predicate IsFirst(records: seq<Record>, h: nat, i: int)
  {
    && 0 <= i < |records| && records[i].active && records[i].handle == h
    && forall j :: 0 <= j < i ==> !(records[j].active && records[j].handle == h)
  }

  lemma FindsFirst(records: seq<Record>, h: nat)
    ensures match Find(records, h)
            case Some(i) => IsFirst(records, h, i) && forall j :: IsFirst(records, h, j) ==> j == i
            case None => forall j :: !IsFirst(records, h, j)
  {
    hide FindFrom;
  }

  /** One inactive record was replaced. */
  ghost predicate Recorded(records: seq<Record>, records': seq<Record>, r: Record)
  {
    exists i :: 0 <= i < |records| && !records[i].active && records' == records[i := r]
  }

  /** The whole reply of a share or lend, and the record it leaves. */
  lemma ShareReply(s: Sys, vm: nat, descSender: nat, receiver: nat, ranges: seq<Range>, isLend: bool)
    requires SysOk(s) && vm < MAX_VMS && RangesOk(ranges)
    ensures var reply := ShareSpec(s, vm, descSender, receiver, ranges, isLend).1;
            reply == if !((1 <= receiver <= 4 || receiver == 0x8001 || receiver == 0x8002) && (descSender == 0 || descSender == vm + 1)) then InvalidParameters
                     else if !Owns(s.views[vm], ranges) then Denied
                     else if forall r <- s.records :: r.active then NoMemory
                     else Success(s.nextHandle)
    ensures var (s', reply) := ShareSpec(s, vm, descSender, receiver, ranges, isLend);
            reply.Success? ==> s'.nextHandle == s.nextHandle + 1 && Recorded(s.records, s'.records, Record(s.nextHandle, vm + 1, receiver, if |ranges| <= 4 then ranges else ranges[..4], true, isLend, false))
  {
    hide Pages, PageList, FirstFree, SetPages;
    forall p: PageNo ensures p in Pages(ranges) <==> exists i, k :: IsPageAt(ranges, i, k, p) { InPages(ranges, p); }
    assert AllOwned(s.views[vm], Pages(ranges)) <==> Owns(s.views[vm], ranges);
    match FirstFree(s.records, 0)
    case None => assert forall r <- s.records :: r.active;
    case Some(i) => assert s.records[i] in s.records;
  }

  /** Only a retrieved record is not reclaimed. */
  lemma ReclaimReply(s: Sys, vm: nat, h: nat)
    requires SysOk(s) && vm < MAX_VMS
    ensures forall i :: IsFirst(s.records, h, i) ==> ReclaimSpec(s, vm, h).1 == if s.records[i].retrieved then Denied else Done
    ensures (forall i :: !IsFirst(s.records, h, i)) ==> ReclaimSpec(s, vm, h).1 == InvalidParameters
  {
    hide Pages, PageList, SetPages;
    FindsFirst(s.records, h);
  }

  /** A retrieve goes through exactly for the addressee of a record that is not retrieved, whose ranges
      are apart and unmapped and whose tables fit. */
  lemma RetrieveReply(s: Sys, vm: nat, h: nat, tablesFit: bool)
    requires SysOk(s) && vm < MAX_VMS
    ensures forall i :: IsFirst(s.records, h, i) ==>
              var r := s.records[i];
              RetrieveSpec(s, vm, h, tablesFit).1 ==
                if r.receiver == vm + 1 && !r.retrieved && Apart(r.ranges) && tablesFit
                   && (forall j, k, p :: IsPageAt(r.ranges, j, k, p) ==> p !in s.views[vm]) then Retrieved else Denied
    ensures (forall i :: !IsFirst(s.records, h, i)) ==> RetrieveSpec(s, vm, h, tablesFit).1 == InvalidParameters
  {
    hide Pages, PageList, MapPages, Apart, NoRepeat;
    FindsFirst(s.records, h);
    match Find(s.records, h)
    case None =>
    case Some(i) =>
      var r := s.records[i];
      assert r in s.records;
      ApartIsDistinct(r.ranges);
      forall p: PageNo ensures p in Pages(r.ranges) <==> exists j, k :: IsPageAt(r.ranges, j, k, p) { InPages(r.ranges, p); }
      assert Pages(r.ranges) !! s.views[vm].Keys <==> forall j, k, p :: IsPageAt(r.ranges, j, k, p) ==> p !in s.views[vm];
  }

  /** The addressee of a retrieved record, and no one else, can relinquish it. */
  lemma RelinquishReply(s: Sys, vm: nat, h: nat)
    requires SysOk(s) && vm < MAX_VMS
    ensures forall i :: IsFirst(s.records, h, i) ==>
              RelinquishSpec(s, vm, h).1 == if s.records[i].receiver == vm + 1 && s.records[i].retrieved then Done else Denied
    ensures (forall i :: !IsFirst(s.records, h, i)) ==> RelinquishSpec(s, vm, h).1 == InvalidParameters
  {
    hide Pages, PageList;
    FindsFirst(s.records, h);
  }

  // ---- the end of a share ----

  /** The receiver gives the pages of a standing deal back, if it has them. */
  ghost function GivenBack(d: Deal, s: Sys, i: nat): (Sys, Reply)
    requires SysOk(s) && i < |s.records|
  {
    var r := s.records[i].receiver;
    if s.records[i].retrieved && 1 <= r <= MAX_VMS then RelinquishSpec(s, r - 1, d.handle) else (s, Done)
  }

  /** Record `i` is the deal's; the receiver's relinquish, if it holds the pages, and then the sender's
      reclaim go through, and both VMs translate the pages as at the start. */
  ghost predicate EndsWell(d: Deal, s: Sys, i: nat)
    requires DealOk(d) && SysOk(s)
  {
    && i < |s.records| && IsRecord(d, s.records[i])
    && (s.records[i].retrieved ==> 1 <= s.records[i].receiver <= MAX_VMS)
    && GivenBack(d, s, i).1 == Done && SysOk(GivenBack(d, s, i).0)
    && var (s', reply) := ReclaimSpec(GivenBack(d, s, i).0, d.vm, d.handle);
    && reply == Done
    && (forall p <- Pages(d.ranges) :: p in d.start.views[d.vm] && p in s'.views[d.vm] && s'.views[d.vm][p] == d.start.views[d.vm][p])
    && (forall p <- Pages(d.ranges) :: Returned(d.start.views[1 - d.vm], s'.views[1 - d.vm], p))
  }

  /** A standing deal can be ended at any time. */
  lemma DealEnds(d: Deal, s: Sys, i: nat)
    requires DealOk(d) && Inv(d.start) && Inv(s) && Stands(d, s, i) && AllOwned(d.start.views[d.vm], Pages(d.ranges))
    ensures EndsWell(d, s, i)
  {
    hide Pages, PageList, VmInv, Stands, SetPages, RelinquishSpec, ReclaimSpec;
    StandsRecord(d, s, i);
    FirstOfDeal(s, i);
    var s1 := GivenBack(d, s, i).0;
    if s.records[i].retrieved {
      var op := Relinquish(s.records[i].receiver - 1, d.handle);
      RelinquishReply(s, op.vm, d.handle);
      StepKeeps(s, op);
      StandsThroughRelinquish(d, s, i, op);
      RelinquishedIs(s, op.vm, d.handle, i);
    }
    StandsRecord(d, s1, i);
    FirstOfDeal(s1, i);
    ReclaimReply(s1, d.vm, d.handle);
    ReclaimReturns(d, s1, i);
    ReclaimOther(s1, d.vm, d.handle);
  }

  lemma StandsRecord(d: Deal, s: Sys, i: nat)
    requires DealOk(d) && SysOk(s) && Stands(d, s, i)
    ensures i < |s.records| && IsRecord(d, s.records[i])
  {
    hide Pages;
  }

  lemma FirstOfDeal(s: Sys, i: nat)
    requires Inv(s) && i < |s.records| && s.records[i].active
    ensures IsFirst(s.records, s.records[i].handle, i) && (s.records[i].retrieved ==> 1 <= s.records[i].receiver <= MAX_VMS)
  {
    hide Pages;
  }

  lemma RelinquishedIs(s: Sys, vm: nat, h: nat, i: nat)
    requires Inv(s) && vm < MAX_VMS && RelinquishSpec(s, vm, h).1 == Done && IsFirst(s.records, h, i)
    ensures RelinquishSpec(s, vm, h).0.records[i] == s.records[i].(retrieved := false)
  {
    hide Pages, VmInv, RecordsInv;
    FindsFirst(s.records, h);
  }

  lemma ReclaimOther(s: Sys, vm: nat, h: nat)
    requires SysOk(s) && vm < MAX_VMS
    ensures ReclaimSpec(s, vm, h).0.views[1 - vm] == s.views[1 - vm]
  {
  }

  /** So after any share or lend of at most four ranges and any calls of both VMs short of its reclaim,
      the two calls end it. */
  lemma ShareEnds(s: Sys, op: Op, run: seq<Sys>, ops: seq<Op>)
    requires Inv(s) && op.Share? && OpOk(op) && |op.ranges| <= MAX_SHARE_RANGES && Step(s, op).1.Success?
    requires IsRun(run, ops) && run[0] == Step(s, op).0
    requires var h := Step(s, op).1.handle; forall j :: 0 <= j < |ops| && ops[j].Reclaim? && ops[j].handle == h ==> Step(run[j], ops[j]).1 != Done
    ensures Inv(run[|ops|]) && exists i :: EndsWell(Deal(s, op.vm, op.receiver, op.ranges, op.isLend, Step(s, op).1.handle), run[|ops|], i)
  {
    hide Pages, VmInv, RecordsInv, Stands, EndsWell;
    var d := Deal(s, op.vm, op.receiver, op.ranges, op.isLend, Step(s, op).1.handle);
    var i := FirstFree(s.records, 0).value;
    ShareStands(s, op.vm, op.descSender, op.receiver, op.ranges, op.isLend);
    StepKeepsShare(s, op);
    StandsInRun(d, run, ops, i, |ops|);
    DealEnds(d, run[|ops|], i);
  }
}
