/** Every run of the sharing protocol keeps pages and records in step. */
module ShareInvariant {
  import opened Descriptor
  import opened ShareProtocol

  /** Replacing one record that a VM neither sent nor holds, or whose part for the VM is the same,
      does not matter to the VM. */
  lemma OtherVm(v: Translation, rs: seq<Record>, i: nat, r: Record, vm: nat)
    requires i < |rs| && VmInv(v, rs, vm)
    requires Sent(r, vm) == Sent(rs[i], vm) && Held(r, vm) == Held(rs[i], vm)
    requires Sent(r, vm) || Held(r, vm) ==> r.ranges == rs[i].ranges && r.isLend == rs[i].isLend
    ensures VmInv(v, rs[i := r], vm)
  {
    hide Pages;
    var rs' := rs[i := r];
    forall k: nat, p: PageNo
      ensures SentCovers(rs', k, vm, p) <==> SentCovers(rs, k, vm, p)
      ensures HeldCovers(rs', k, vm, p) <==> HeldCovers(rs, k, vm, p)
    {
    }
  }

  // ---- share and lend ----

  /** The record of an accepted share covers all the pages that changed. */
  ghost predicate ShareRecorded(s: Sys, ranges: seq<Range>)
    requires SysOk(s) && RangesOk(ranges)
  {
    Pages(ranges) == {} || (FirstFree(s.records, 0).Some? && Pages(Kept(ranges)) == Pages(ranges))
  }

  lemma KeptOk(ranges: seq<Range>)
    requires RangesOk(ranges)
    ensures RangesOk(Kept(ranges)) && Pages(Kept(ranges)) <= Pages(ranges)
  {
    if |ranges| > MAX_SHARE_RANGES { PrefixPages(ranges, MAX_SHARE_RANGES); }
  }

  lemma {:induction false} PrefixPages(ranges: seq<Range>, n: nat)
    requires RangesOk(ranges) && n <= |ranges|
    ensures Pages(ranges[..n]) <= Pages(ranges)
  {
    if n < |ranges| {
      var front := ranges[..|ranges| - 1];
      assert front[..n] == ranges[..n];
      PrefixPages(front, n);
    } else {
      assert ranges[..n] == ranges;
    }
  }

  lemma ShareVm(v: Translation, rs: seq<Record>, i: nat, r: Record, vm: nat, ps: set<PageNo>)
    requires i < |rs| && !rs[i].active && VmInv(v, rs, vm) && AllOwned(v, ps)
    requires Sent(r, vm) && !r.retrieved && RangesOk(r.ranges) && Pages(r.ranges) == ps
    ensures VmInv(SetPages(v, ps, SHARED_OWNED, Perm(r.isLend)), rs[i := r], vm)
  {
    hide Pages;
    var v', rs' := SetPages(v, ps, SHARED_OWNED, Perm(r.isLend)), rs[i := r];
    forall k: nat, p: PageNo
      ensures SentCovers(rs', k, vm, p) <==> (if k == i then p in ps else SentCovers(rs, k, vm, p))
      ensures HeldCovers(rs', k, vm, p) <==> HeldCovers(rs, k, vm, p)
    {
    }
    forall p <- v' | v'[p].sw == SHARED_OWNED ensures exists k: nat :: SentCovers(rs', k, vm, p) {
      if p in ps {
        assert SentCovers(rs', i, vm, p);
      } else {
        var k: nat :| SentCovers(rs, k, vm, p);
        assert SentCovers(rs', k, vm, p);
      }
    }
    forall p <- v' | v'[p].sw == SHARED_BORROWED ensures exists k: nat :: HeldCovers(rs', k, vm, p) {
      var k: nat :| HeldCovers(rs, k, vm, p);
      assert HeldCovers(rs', k, vm, p);
    }
  }

  lemma ShareRecords(v: Translation, rs: seq<Record>, n: nat, i: nat, r: Record, vm: nat, ps: set<PageNo>)
    requires i < |rs| && !rs[i].active && RecordsInv(rs, n) && VmInv(v, rs, vm) && AllOwned(v, ps)
    requires vm < MAX_VMS && Sent(r, vm) && !r.retrieved && r.handle == n && RangesOk(r.ranges) && Pages(r.ranges) <= ps
    ensures RecordsInv(rs[i := r], n + 1)
  {
    hide Pages;
    var rs' := rs[i := r];
    forall k: nat, w: nat, p: PageNo
      ensures SentCovers(rs', k, w, p) ==> if k == i then w == vm && p in ps else SentCovers(rs, k, w, p)
      ensures HeldCovers(rs', k, w, p) ==> HeldCovers(rs, k, w, p)
    {
    }
    forall k: nat, p: PageNo | p in ps ensures !SentCovers(rs, k, vm, p) {
      assert v[p].sw == OWNED;
    }
  }

  lemma ShareKeeps(s: Sys, vm: nat, descSender: nat, receiver: nat, ranges: seq<Range>, isLend: bool)
    requires Inv(s) && vm < MAX_VMS && RangesOk(ranges)
    requires ShareAccepted(s, vm, descSender, receiver, ranges) && ShareRecorded(s, ranges)
    ensures Inv(ShareSpec(s, vm, descSender, receiver, ranges, isLend).0)
  {
    hide Pages, RecordsInv, VmInv, SetPages;
    var s' := ShareSpec(s, vm, descSender, receiver, ranges, isLend).0;
    var ps, other := Pages(ranges), 1 - vm;
    KeptOk(ranges);
    match FirstFree(s.records, 0)
    case None =>
      SetNothing(s.views[vm], SHARED_OWNED, Perm(isLend));
      assert s'.views == s.views;
      LaterHandle(s.records, s.nextHandle);
    case Some(i) =>
      var r := Record(s.nextHandle, PartitionId(vm), receiver, Kept(ranges), true, isLend, false);
      ShareRecords(s.views[vm], s.records, s.nextHandle, i, r, vm, ps);
      ShareVm(s.views[vm], s.records, i, r, vm, ps);
      OtherVm(s.views[other], s.records, i, r, other);
  }

  lemma SetNothing(v: Translation, sw: U2, s2ap: U2)
    ensures SetPages(v, {}, sw, s2ap) == v
  {
  }

  lemma LaterHandle(rs: seq<Record>, n: nat)
    requires RecordsInv(rs, n)
    ensures RecordsInv(rs, n + 1)
  {
  }

  /** An accepted share keeps the invariant exactly when its record covers the pages that changed:
      at most the first four ranges are recorded, and only if a record is free. */
  lemma ShareKeepsExactly(s: Sys, vm: nat, descSender: nat, receiver: nat, ranges: seq<Range>, isLend: bool)
    requires Inv(s) && vm < MAX_VMS && RangesOk(ranges)
    requires ShareAccepted(s, vm, descSender, receiver, ranges)
    ensures Inv(ShareSpec(s, vm, descSender, receiver, ranges, isLend).0) <==> ShareRecorded(s, ranges)
  {
    if ShareRecorded(s, ranges) {
      ShareKeeps(s, vm, descSender, receiver, ranges, isLend);
    } else {
      hide Pages;
      var s' := ShareSpec(s, vm, descSender, receiver, ranges, isLend).0;
      KeptOk(ranges);
      var p :| p in Pages(ranges) && (FirstFree(s.records, 0).Some? ==> p !in Pages(Kept(ranges)));
      forall k: nat ensures !SentCovers(s'.records, k, vm, p) {
        assert !SentCovers(s.records, k, vm, p);
      }
      assert s'.views[vm][p].sw == SHARED_OWNED;
      assert !VmInv(s'.views[vm], s'.records, vm);
    }
  }

  // ---- reclaim ----

  lemma ReclaimVm(v: Translation, rs: seq<Record>, n: nat, i: nat, vm: nat)
    requires i < |rs| && VmInv(v, rs, vm) && RecordsInv(rs, n)
    requires Sent(rs[i], vm) && !rs[i].retrieved && RangesOk(rs[i].ranges)
    ensures VmInv(SetPages(v, Pages(rs[i].ranges), OWNED, S2AP_RW), rs[i := rs[i].(active := false)], vm)
  {
    hide Pages;
    var ps := Pages(rs[i].ranges);
    var v', rs' := SetPages(v, ps, OWNED, S2AP_RW), rs[i := rs[i].(active := false)];
    forall k: nat, p: PageNo
      ensures SentCovers(rs', k, vm, p) <==> k != i && SentCovers(rs, k, vm, p)
      ensures HeldCovers(rs', k, vm, p) <==> HeldCovers(rs, k, vm, p)
    {
    }
    forall p | p in ps ensures SentCovers(rs, i, vm, p) { }
    forall p <- v' | v'[p].sw == SHARED_OWNED ensures exists k: nat :: SentCovers(rs', k, vm, p) {
      var k: nat :| SentCovers(rs, k, vm, p);
      assert SentCovers(rs', k, vm, p);
    }
    forall p <- v' | v'[p].sw == SHARED_BORROWED ensures exists k: nat :: HeldCovers(rs', k, vm, p) {
      var k: nat :| HeldCovers(rs, k, vm, p);
      assert HeldCovers(rs', k, vm, p);
    }
  }

  lemma DropRecord(rs: seq<Record>, n: nat, i: nat)
    requires i < |rs| && RecordsInv(rs, n)
    ensures RecordsInv(rs[i := rs[i].(active := false)], n)
  {
    hide Pages;
    var rs' := rs[i := rs[i].(active := false)];
    forall k: nat, w: nat, p: PageNo
      ensures SentCovers(rs', k, w, p) ==> SentCovers(rs, k, w, p)
      ensures HeldCovers(rs', k, w, p) ==> HeldCovers(rs, k, w, p)
    {
    }
  }

  /** Dropping a record that covers nothing. */
  lemma DropEmpty(v: Translation, rs: seq<Record>, i: nat, vm: nat)
    requires i < |rs| && VmInv(v, rs, vm) && RangesOk(rs[i].ranges) && Pages(rs[i].ranges) == {}
    ensures VmInv(v, rs[i := rs[i].(active := false)], vm)
  {
    hide Pages;
    var rs' := rs[i := rs[i].(active := false)];
    forall k: nat, p: PageNo
      ensures SentCovers(rs', k, vm, p) <==> SentCovers(rs, k, vm, p)
      ensures HeldCovers(rs', k, vm, p) <==> HeldCovers(rs, k, vm, p)
    {
    }
  }

  /** A reclaim that goes through keeps the invariant exactly when the caller sent the record, or
      the record covers no page. */
  lemma ReclaimKeepsExactly(s: Sys, vm: nat, h: nat)
    requires Inv(s) && vm < MAX_VMS && ReclaimSpec(s, vm, h).1 == Done
    ensures var r := s.records[Find(s.records, h).value];
            Inv(ReclaimSpec(s, vm, h).0) <==> r.sender == PartitionId(vm) || Pages(r.ranges) == {}
  {
    hide Pages, SetPages, VmInv, RecordsInv;
    var i := Find(s.records, h).value;
    var r, s', other := s.records[i], ReclaimSpec(s, vm, h).0, 1 - vm;
    DropRecord(s.records, s.nextHandle, i);
    if Pages(r.ranges) == {} {
      SetNothing(s.views[vm], OWNED, S2AP_RW);
      DropEmpty(s.views[vm], s.records, i, vm);
      DropEmpty(s.views[other], s.records, i, other);
    } else if r.sender == PartitionId(vm) {
      ReclaimVm(s.views[vm], s.records, s.nextHandle, i, vm);
      OtherVm(s.views[other], s.records, i, r.(active := false), other);
    } else {
      SenderIs(s.records, s.nextHandle, i);
      ReclaimByOther(s.views[other], s.records, s.nextHandle, i, other);
      assert !VmInv(s'.views[other], s'.records, other);
    }
  }

  lemma SenderIs(rs: seq<Record>, n: nat, i: nat)
    requires RecordsInv(rs, n) && i < |rs| && rs[i].active
    ensures 1 <= rs[i].sender <= MAX_VMS
  {
  }

  /** A record that goes away leaves the sender's pages shared. */
  lemma ReclaimByOther(v: Translation, rs: seq<Record>, n: nat, i: nat, vm: nat)
    requires VmInv(v, rs, vm) && RecordsInv(rs, n) && i < |rs| && Sent(rs[i], vm) && RangesOk(rs[i].ranges) && Pages(rs[i].ranges) != {}
    ensures !VmInv(v, rs[i := rs[i].(active := false)], vm)
  {
    hide Pages;
    var p :| p in Pages(rs[i].ranges);
    var rs' := rs[i := rs[i].(active := false)];
    assert SentCovers(rs, i, vm, p);
    forall k: nat ensures !SentCovers(rs', k, vm, p) {
      assert SentCovers(rs, k, vm, p) ==> k == i;
    }
  }

  // ---- retrieve and relinquish ----

  lemma RetrieveVm(v: Translation, rs: seq<Record>, n: nat, i: nat, vm: nat)
    requires i < |rs| && VmInv(v, rs, vm) && RecordsInv(rs, n)
    requires rs[i].active && !rs[i].retrieved && rs[i].receiver == PartitionId(vm) && vm < MAX_VMS && RangesOk(rs[i].ranges)
    requires Pages(rs[i].ranges) !! v.Keys
    ensures VmInv(MapPages(v, Pages(rs[i].ranges)), rs[i := rs[i].(retrieved := true)], vm)
    ensures RecordsInv(rs[i := rs[i].(retrieved := true)], n)
  {
    hide Pages;
    var ps := Pages(rs[i].ranges);
    var v', rs' := MapPages(v, ps), rs[i := rs[i].(retrieved := true)];
    forall k: nat, w: nat, p: PageNo
      ensures SentCovers(rs', k, w, p) <==> SentCovers(rs, k, w, p)
      ensures HeldCovers(rs', k, w, p) <==> if k == i then w == vm && p in ps else HeldCovers(rs, k, w, p)
    {
    }
    forall p <- v' | v'[p].sw == SHARED_OWNED ensures exists k: nat :: SentCovers(rs', k, vm, p) {
      var k: nat :| SentCovers(rs, k, vm, p);
      assert SentCovers(rs', k, vm, p);
    }
    forall p <- v' | v'[p].sw == SHARED_BORROWED ensures exists k: nat :: HeldCovers(rs', k, vm, p) {
      if p in ps {
        assert HeldCovers(rs', i, vm, p);
      } else {
        var k: nat :| HeldCovers(rs, k, vm, p);
        assert HeldCovers(rs', k, vm, p);
      }
    }
  }

  lemma RelinquishVm(v: Translation, rs: seq<Record>, n: nat, i: nat, vm: nat)
    requires i < |rs| && VmInv(v, rs, vm) && RecordsInv(rs, n)
    requires Held(rs[i], vm) && RangesOk(rs[i].ranges)
    ensures VmInv(v - Pages(rs[i].ranges), rs[i := rs[i].(retrieved := false)], vm)
    ensures RecordsInv(rs[i := rs[i].(retrieved := false)], n)
  {
    hide Pages;
    var ps := Pages(rs[i].ranges);
    var v', rs' := v - ps, rs[i := rs[i].(retrieved := false)];
    forall k: nat, w: nat, p: PageNo
      ensures SentCovers(rs', k, w, p) <==> SentCovers(rs, k, w, p)
      ensures HeldCovers(rs', k, w, p) <==> k != i && HeldCovers(rs, k, w, p)
    {
    }
    forall p | p in ps ensures HeldCovers(rs, i, vm, p) { }
    forall p <- v' | v'[p].sw == SHARED_OWNED ensures exists k: nat :: SentCovers(rs', k, vm, p) {
      var k: nat :| SentCovers(rs, k, vm, p);
      assert SentCovers(rs', k, vm, p);
    }
    forall p <- v' | v'[p].sw == SHARED_BORROWED ensures exists k: nat :: HeldCovers(rs', k, vm, p) {
      var k: nat :| HeldCovers(rs, k, vm, p);
      assert HeldCovers(rs', k, vm, p);
    }
  }

  /** What a caller has to observe: an accepted share fits its record, a reclaim comes from the sender. */
  ghost predicate Disciplined(s: Sys, op: Op)
    requires SysOk(s) && OpOk(op)
  {
    match op
    case Share(vm, descSender, receiver, ranges, isLend) =>
      ShareAccepted(s, vm, descSender, receiver, ranges) ==> ShareRecorded(s, ranges)
    case Reclaim(vm, h) =>
      ReclaimSpec(s, vm, h).1 == Done ==>
        var r := s.records[Find(s.records, h).value]; r.sender == PartitionId(vm) || Pages(r.ranges) == {}
    case Retrieve(vm, h, tablesFit) => true
    case Relinquish(vm, h) => true
  }

  /** At most four ranges and a free record are enough. */
  lemma FourRangesFit(s: Sys, ranges: seq<Range>)
    requires SysOk(s) && RangesOk(ranges) && |ranges| <= MAX_SHARE_RANGES && FirstFree(s.records, 0).Some?
    ensures ShareRecorded(s, ranges)
  {
  }

  lemma StepKeeps(s: Sys, op: Op)
    requires Inv(s) && OpOk(op) && Disciplined(s, op)
    ensures Inv(Step(s, op).0)
  {
    hide Pages, SetPages, VmInv, RecordsInv, MapPages;
    var other := 1 - op.vm;
    match op
    case Share(vm, descSender, receiver, ranges, isLend) =>
      if ShareAccepted(s, vm, descSender, receiver, ranges) { ShareKeeps(s, vm, descSender, receiver, ranges, isLend); }
    case Reclaim(vm, h) =>
      if ReclaimSpec(s, vm, h).1 == Done { ReclaimKeepsExactly(s, vm, h); }
    case Retrieve(vm, h, tablesFit) =>
      if RetrieveSpec(s, vm, h, tablesFit).1 == Retrieved {
        var i := Find(s.records, h).value;
        RetrieveVm(s.views[vm], s.records, s.nextHandle, i, vm);
        OtherVm(s.views[other], s.records, i, s.records[i].(retrieved := true), other);
      }
    case Relinquish(vm, h) =>
      if RelinquishSpec(s, vm, h).1 == Done {
        var i := Find(s.records, h).value;
        RelinquishVm(s.views[vm], s.records, s.nextHandle, i, vm);
        OtherVm(s.views[other], s.records, i, s.records[i].(retrieved := false), other);
      }
  }

  // ---- runs ----

  /** The states that a disciplined sequence of calls goes through. */
  ghost predicate IsRun(run: seq<Sys>, ops: seq<Op>)
  {
    && |run| == |ops| + 1
    && forall k :: 0 <= k < |ops| ==>
         SysOk(run[k]) && OpOk(ops[k]) && Disciplined(run[k], ops[k]) && run[k + 1] == Step(run[k], ops[k]).0
  }

  /** Pages and records stay in step in every run. */
  lemma {:induction false} RunKeeps(run: seq<Sys>, ops: seq<Op>, k: nat)
    requires IsRun(run, ops) && Inv(run[0]) && k < |run|
    ensures Inv(run[k])
  {
    hide Inv, Step, Disciplined;
    if k > 0 {
      RunKeeps(run, ops, k - 1);
      StepKeeps(run[k - 1], ops[k - 1]);
    }
  }

  /** Without records, translations in which every page is owned and read-write are in step. */
  lemma BootKeeps(s: Sys)
    requires SysOk(s) && (forall r <- s.records :: !r.active)
    requires forall vm: nat, p | vm < MAX_VMS && p in s.views[vm] :: s.views[vm][p].sw == OWNED && Readable(s.views[vm][p]) && Writable(s.views[vm][p])
    ensures Inv(s)
  {
    hide Pages;
    forall i: nat, vm: nat, p: PageNo
      ensures !SentCovers(s.records, i, vm, p) && !HeldCovers(s.records, i, vm, p)
    {
      assert i < |s.records| ==> s.records[i] in s.records;
    }
  }

  // ---- runs that lose the invariant ----

  /** Two booted VMs, the first with `n` pages. */
  ghost function Booted(n: nat): Sys
  {
    Sys([map p: PageNo | p < n :: Borrowed(p).(sw := OWNED), map[]],
        seq(MAX_SHARES, _ => Record(0, 0, 0, [], false, false, false)), 1)
  }

  lemma BootedKeeps(n: nat)
    ensures Inv(Booted(n)) && FirstFree(Booted(n).records, 0) == Some(0)
  {
    BootKeeps(Booted(n));
  }

  /** The first `n` pages as ranges of one page each. */
  ghost function Singles(n: nat): seq<Range> { seq(n, i requires 0 <= i < n => Range(i * 4096, 1)) }

  lemma {:induction false} SinglePages(n: nat)
    requires n <= PAGES
    ensures RangesOk(Singles(n)) && forall p: PageNo :: p in Pages(Singles(n)) <==> p < n
  {
    if n > 0 {
      assert Singles(n)[..n - 1] == Singles(n - 1);
      SinglePages(n - 1);
      assert RangeList(Range((n - 1) * 4096, 1), 1) == [n - 1];
      assert PageList(Singles(n)) == PageList(Singles(n - 1)) + [n - 1];
      forall p: PageNo ensures p in Pages(Singles(n)) <==> p < n {
        assert p in Pages(Singles(n)) <==> p in Pages(Singles(n - 1)) || p == n - 1;
      }
    }
  }

  /** Sharing more than four pages one by one is accepted, and loses the invariant. */
  lemma ManyRangesLost(n: nat, isLend: bool)
    requires MAX_SHARE_RANGES < n <= PAGES
    ensures RangesOk(Singles(n)) && Inv(Booted(n))
    ensures var (s, reply) := ShareSpec(Booted(n), 0, 0, PartitionId(1), Singles(n), isLend);
            reply == Success(1) && !Inv(s)
  {
    hide Pages, PageList, Inv, VmInv;
    BootedKeeps(n);
    SinglePages(n);
    SinglePages(MAX_SHARE_RANGES);
    var last: PageNo := n - 1;
    assert Kept(Singles(n)) == Singles(MAX_SHARE_RANGES);
    assert last in Pages(Singles(n)) && last !in Pages(Kept(Singles(n)));
    assert AllOwned(Booted(n).views[0], Pages(Singles(n)));
    ShareKeepsExactly(Booted(n), 0, 0, PartitionId(1), Singles(n), isLend);
  }

  /** The receiver of a page that it has not retrieved can reclaim it; the sender's page stays shared. */
  lemma ReclaimByReceiver(isLend: bool)
    ensures RangesOk(Singles(1)) && Inv(Booted(1))
    ensures var s := ShareSpec(Booted(1), 0, 0, PartitionId(1), Singles(1), isLend).0;
            Inv(s) && ReclaimSpec(s, 1, 1).1 == Done && !Inv(ReclaimSpec(s, 1, 1).0)
  {
    hide Pages, PageList, RecordsInv, VmInv, SetPages;
    BootedKeeps(1);
    SinglePages(1);
    var page: PageNo := 0;
    assert page in Pages(Singles(1));
    ShareKeepsExactly(Booted(1), 0, 0, PartitionId(1), Singles(1), isLend);
    var s := ShareSpec(Booted(1), 0, 0, PartitionId(1), Singles(1), isLend).0;
    assert s.records[0] == Record(1, PartitionId(0), PartitionId(1), Singles(1), true, isLend, false);
    assert Find(s.records, 1) == Some(0);
    ReclaimKeepsExactly(s, 1, 1);
  }
}
