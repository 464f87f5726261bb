/** Sharing and reclaiming leaves no trace in the translations. */
module ShareRoundTrip {
  import opened Descriptor
  import opened PageTable
  import opened ShareProtocol
  import opened ShareInvariant

  /** A share of `ranges` by `vm`, as it was made from state `start`. */
  datatype Deal = Deal(start: Sys, vm: nat, receiver: nat, ranges: seq<Range>, isLend: bool, handle: nat)

  ghost predicate DealOk(d: Deal) { SysOk(d.start) && d.vm < MAX_VMS && RangesOk(d.ranges) }

  ghost predicate IsRecord(d: Deal, r: Record)
  {
    && r.active && r.handle == d.handle && r.sender == PartitionId(d.vm) && r.receiver == d.receiver
    && r.ranges == d.ranges && r.isLend == d.isLend
  }

  /** Two leaves differ at most in ownership and permission. */
  predicate SameTarget(a: Leaf, b: Leaf) { a == b.(sw := a.sw, s2ap := a.s2ap) }

  /** A page that the other VM mapped at the start is still its own; its own shares change the
      ownership and permission. */
  ghost predicate OthersOwn(d: Deal, s: Sys, p: PageNo)
    requires DealOk(d) && SysOk(s)
  {
    var v, w := d.start.views[1 - d.vm], s.views[1 - d.vm];
    p in v ==> p in w && w[p].sw != SHARED_BORROWED && SameTarget(w[p], v[p])
  }

  /** While the deal stands: its record is there, the sender's pages differ from the start only in
      ownership and permission (readable if shared, not if lent, never writable), the other VM keeps those that it mapped, and one that it did not map
      is mapped there now only because it was retrieved. */
  ghost predicate Stands(d: Deal, s: Sys, i: nat)
    requires DealOk(d) && SysOk(s)
  {
    && i < |s.records| && IsRecord(d, s.records[i])
    && (forall p <- Pages(d.ranges) :: p in d.start.views[d.vm] && p in s.views[d.vm]
          && SameTarget(s.views[d.vm][p], d.start.views[d.vm][p]) && s.views[d.vm][p].sw == SHARED_OWNED
          && (Readable(s.views[d.vm][p]) <==> !d.isLend) && !Writable(s.views[d.vm][p]))
    && (forall p <- Pages(d.ranges) :: p !in d.start.views[1 - d.vm] && p in s.views[1 - d.vm] ==> Held(s.records[i], 1 - d.vm))
    && (forall p <- Pages(d.ranges) :: OthersOwn(d, s, p))
  }

  /** The record of a handle is unique. */
  lemma FindIs(rs: seq<Record>, n: nat, i: nat)
    requires RecordsInv(rs, n) && i < |rs| && rs[i].active
    ensures Find(rs, rs[i].handle) == Some(i)
  {
    hide Pages;
  }

  lemma ShareStands(s: Sys, vm: nat, descSender: nat, receiver: nat, ranges: seq<Range>, isLend: bool)
    requires Inv(s) && vm < MAX_VMS && RangesOk(ranges) && |ranges| <= MAX_SHARE_RANGES
    requires ShareSpec(s, vm, descSender, receiver, ranges, isLend).1.Success?
    ensures var (s', reply) := ShareSpec(s, vm, descSender, receiver, ranges, isLend);
            SysOk(s') && Stands(Deal(s, vm, receiver, ranges, isLend, reply.handle), s', FirstFree(s.records, 0).value)
  {
    hide Pages, VmInv, RecordsInv;
    forall p <- Pages(ranges) ensures p in s.views[1 - vm] ==> s.views[1 - vm][p].sw != SHARED_BORROWED {
      OwnedByOne(s, vm, p);
    }
  }

  /** A page that one VM owns is not lent to the other. */
  lemma OwnedByOne(s: Sys, vm: nat, p: PageNo)
    requires Inv(s) && vm < MAX_VMS && p in s.views[vm] && s.views[vm][p].sw == OWNED
    ensures p in s.views[1 - vm] ==> s.views[1 - vm][p].sw != SHARED_BORROWED
  {
    hide Pages;
    var w := s.views[1 - vm];
    if p in w && w[p].sw == SHARED_BORROWED {
      assert VmInv(w, s.records, 1 - vm);
      var j: nat :| HeldCovers(s.records, j, 1 - vm, p);
      SenderIsVm(s, j);
      SentPage(s, j, s.records[j].sender - 1, p);
    }
  }

  /** A covered page in the sender's translation; the covering record is unique. */
  lemma SentPage(s: Sys, i: nat, vm: nat, p: PageNo)
    requires Inv(s) && vm < MAX_VMS && SentCovers(s.records, i, vm, p)
    ensures p in s.views[vm] && s.views[vm][p].sw == SHARED_OWNED
    ensures forall j: nat :: SentCovers(s.records, j, vm, p) ==> j == i
    ensures forall j: nat :: !HeldCovers(s.records, j, vm, p)
  {
    hide Pages;
  }

  lemma HeldPage(s: Sys, i: nat, vm: nat, p: PageNo)
    requires Inv(s) && vm < MAX_VMS && HeldCovers(s.records, i, vm, p)
    ensures p in s.views[vm] && s.views[vm][p].sw == SHARED_BORROWED
  {
    hide Pages;
  }

  lemma SenderIsVm(s: Sys, j: nat)
    requires Inv(s) && j < |s.records| && s.records[j].active
    ensures 1 <= s.records[j].sender <= MAX_VMS
  {
    hide Pages;
  }

  lemma StandsThroughShare(d: Deal, s: Sys, i: nat, op: Op)
    requires DealOk(d) && Inv(s) && Stands(d, s, i) && op.Share? && OpOk(op) && SysOk(Step(s, op).0)
    ensures Stands(d, Step(s, op).0, i)
  {
    hide Pages, VmInv, RecordsInv;
  }

  lemma StandsThroughReclaim(d: Deal, s: Sys, i: nat, op: Op)
    requires DealOk(d) && Inv(s) && Stands(d, s, i) && op.Reclaim? && OpOk(op) && Disciplined(s, op) && SysOk(Step(s, op).0)
    requires op.handle != d.handle || Step(s, op).1 != Done
    ensures Stands(d, Step(s, op).0, i)
  {
    hide Pages, VmInv, RecordsInv;
    FindIs(s.records, s.nextHandle, i);
    if Step(s, op).1 == Done {
      var j := Find(s.records, op.handle).value;
      forall p <- Pages(d.ranges) ensures p in Pages(s.records[j].ranges) ==> op.vm != d.vm {
        SentPage(s, i, d.vm, p);
        assert p in Pages(s.records[j].ranges) ==> SentCovers(s.records, j, op.vm, p);
      }
    }
  }

  lemma StandsThroughRetrieve(d: Deal, s: Sys, i: nat, op: Op)
    requires DealOk(d) && Inv(s) && Stands(d, s, i) && op.Retrieve? && OpOk(op) && SysOk(Step(s, op).0)
    ensures Stands(d, Step(s, op).0, i)
  {
    hide Pages, VmInv, RecordsInv, NoRepeat;
    if Step(s, op).1 == Retrieved {
      var j := Find(s.records, op.handle).value;
      forall p <- Pages(d.ranges) ensures p in Pages(s.records[j].ranges) ==> op.vm != d.vm && j == i {
        SentPage(s, i, d.vm, p);
        if p in Pages(s.records[j].ranges) {
          SenderIsVm(s, j);
          var sender: nat := s.records[j].sender - 1;
          SentPage(s, j, sender, p);
        }
      }
    }
  }

  lemma StandsThroughRelinquish(d: Deal, s: Sys, i: nat, op: Op)
    requires DealOk(d) && Inv(s) && Stands(d, s, i) && op.Relinquish? && OpOk(op) && SysOk(Step(s, op).0)
    ensures Stands(d, Step(s, op).0, i)
  {
    hide Pages, VmInv, RecordsInv;
    if Step(s, op).1 == Done {
      var j := Find(s.records, op.handle).value;
      forall p <- Pages(d.ranges) ensures p in Pages(s.records[j].ranges) ==> op.vm != d.vm && p !in d.start.views[1 - d.vm] {
        SentPage(s, i, d.vm, p);
        if p in Pages(s.records[j].ranges) { HeldPage(s, j, op.vm, p); }
      }
    }
  }

  /** The deal stands until its handle is reclaimed. */
  lemma {:induction false} StandsInRun(d: Deal, run: seq<Sys>, ops: seq<Op>, i: nat, k: nat)
    requires DealOk(d) && IsRun(run, ops) && Inv(run[0]) && Stands(d, run[0], i) && k < |run|
    requires forall j :: 0 <= j < k && ops[j].Reclaim? && ops[j].handle == d.handle ==> Step(run[j], ops[j]).1 != Done
    ensures Inv(run[k]) && Stands(d, run[k], i)
  {
    hide Inv, Disciplined, Stands, Step;
    if k > 0 {
      StandsInRun(d, run, ops, i, k - 1);
      var s, op := run[k - 1], ops[k - 1];
      StepKeeps(s, op);
      InvIsOk(run[k]);
      match op
      case Share(_, _, _, _, _) => StandsThroughShare(d, s, i, op);
      case Reclaim(_, _) => StandsThroughReclaim(d, s, i, op);
      case Retrieve(_, _, _) => StandsThroughRetrieve(d, s, i, op);
      case Relinquish(_, _) => StandsThroughRelinquish(d, s, i, op);
    }
  }

  lemma InvIsOk(s: Sys)
    requires Inv(s)
    ensures SysOk(s)
  {
  }

  /** The other VM maps the page afterwards exactly if it did before, to the same place and never as
      borrowed; if it owns the page at both times, in the same way. */
  ghost predicate Returned(v: Translation, w: Translation, p: PageNo)
  {
    && (p in v <==> p in w)
    && (p in v ==> w[p].sw != SHARED_BORROWED && SameTarget(w[p], v[p]) && (v[p].sw == OWNED == w[p].sw ==> w[p] == v[p]))
  }

  lemma OtherReturned(d: Deal, s: Sys, i: nat, p: PageNo)
    requires DealOk(d) && Inv(d.start) && Inv(s) && Stands(d, s, i) && p in Pages(d.ranges) && !s.records[i].retrieved
    ensures Returned(d.start.views[1 - d.vm], s.views[1 - d.vm], p)
  {
    hide Pages, RecordsInv;
    assert VmInv(d.start.views[1 - d.vm], d.start.records, 1 - d.vm) && VmInv(s.views[1 - d.vm], s.records, 1 - d.vm);
    assert OthersOwn(d, s, p);
  }

  /** Reclaiming a standing deal gives the pages back. */
  lemma ReclaimReturns(d: Deal, s: Sys, i: nat)
    requires DealOk(d) && Inv(d.start) && Inv(s) && Stands(d, s, i) && AllOwned(d.start.views[d.vm], Pages(d.ranges))
    requires ReclaimSpec(s, d.vm, d.handle).1 == Done
    ensures var v, w := ReclaimSpec(s, d.vm, d.handle).0.views[d.vm], s.views[1 - d.vm];
            && (forall p <- Pages(d.ranges) :: p in d.start.views[d.vm] && p in v && v[p] == d.start.views[d.vm][p])
            && (forall p <- Pages(d.ranges) :: Returned(d.start.views[1 - d.vm], w, p))
  {
    hide Pages, RecordsInv, Returned;
    FindIs(s.records, s.nextHandle, i);
    forall p <- Pages(d.ranges) ensures Returned(d.start.views[1 - d.vm], s.views[1 - d.vm], p) { OtherReturned(d, s, i, p); }
    forall p <- Pages(d.ranges) ensures Readable(d.start.views[d.vm][p]) && Writable(d.start.views[d.vm][p]) {
      assert VmInv(d.start.views[d.vm], d.start.records, d.vm);
    }
  }

  /** A share or lend, then any calls of either VM on any handles, then the reclaim of this handle:
      the sender translates the pages as before the share, and the other VM maps those that it mapped
      before. */
  lemma RoundTrip(s: Sys, op: Op, run: seq<Sys>, ops: seq<Op>)
    requires Inv(s) && op.Share? && OpOk(op) && |op.ranges| <= MAX_SHARE_RANGES && Step(s, op).1.Success?
    requires IsRun(run, ops) && |ops| > 0 && run[0] == Step(s, op).0
    requires var h, last := Step(s, op).1.handle, |ops| - 1;
             && ops[last] == Reclaim(op.vm, h) && Step(run[last], ops[last]).1 == Done
             && forall j :: 0 <= j < last && ops[j].Reclaim? && ops[j].handle == h ==> Step(run[j], ops[j]).1 != Done
    ensures var v, w := run[|ops|].views[op.vm], run[|ops|].views[1 - op.vm];
            && (forall p <- Pages(op.ranges) :: p in s.views[op.vm] && p in v && v[p] == s.views[op.vm][p])
            && (forall p <- Pages(op.ranges) :: Returned(s.views[1 - op.vm], w, p))
  {
    hide Pages, VmInv, RecordsInv, Stands;
    var h, last := Step(s, op).1.handle, |ops| - 1;
    var d := Deal(s, op.vm, op.receiver, op.ranges, op.isLend, h);
    var i := FirstFree(s.records, 0).value;
    ShareStands(s, op.vm, op.descSender, op.receiver, op.ranges, op.isLend);
    StepKeepsShare(s, op);
    StandsInRun(d, run, ops, i, last);
    ReclaimReturns(d, run[last], i);
    assert run[last + 1] == ReclaimSpec(run[last], op.vm, h).0;
  }

  /** If the other VM maps one of the pages when they are shared, no retrieve of them goes through
      until they are reclaimed. */
  lemma NeverRetrieved(s: Sys, op: Op, run: seq<Sys>, ops: seq<Op>, k: nat, p: PageNo)
    requires Inv(s) && op.Share? && OpOk(op) && |op.ranges| <= MAX_SHARE_RANGES && Step(s, op).1.Success?
    requires IsRun(run, ops) && run[0] == Step(s, op).0 && k < |ops|
    requires var h := Step(s, op).1.handle;
             && ops[k].Retrieve? && ops[k].handle == h
             && forall j :: 0 <= j < k && ops[j].Reclaim? && ops[j].handle == h ==> Step(run[j], ops[j]).1 != Done
    requires p in Pages(op.ranges) && p in s.views[1 - op.vm]
    ensures Step(run[k], ops[k]).1 == Denied
  {
    hide Pages, VmInv, RecordsInv, Stands, PageList, NoRepeat;
    var d := Deal(s, op.vm, op.receiver, op.ranges, op.isLend, Step(s, op).1.handle);
    var i := FirstFree(s.records, 0).value;
    ShareStands(s, op.vm, op.descSender, op.receiver, op.ranges, op.isLend);
    StepKeepsShare(s, op);
    StandsInRun(d, run, ops, i, k);
    StandsMeans(d, run[k], i, p);
  }

  lemma StandsMeans(d: Deal, s: Sys, i: nat, p: PageNo)
    requires DealOk(d) && Inv(s) && Stands(d, s, i) && p in Pages(d.ranges) && p in d.start.views[1 - d.vm]
    ensures p in s.views[0] && p in s.views[1] && Find(s.records, d.handle) == Some(i) && s.records[i].ranges == d.ranges
  {
    hide Pages, RecordsInv, VmInv;
    assert OthersOwn(d, s, p);
    FindIs(s.records, s.nextHandle, i);
  }

  lemma StepKeepsShare(s: Sys, op: Op)
    requires Inv(s) && op.Share? && OpOk(op) && |op.ranges| <= MAX_SHARE_RANGES && Step(s, op).1.Success?
    ensures Inv(Step(s, op).0)
  {
    FourRangesFit(s, op.ranges);
    StepKeeps(s, op);
  }
}
