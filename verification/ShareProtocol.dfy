/** The FF-A memory-sharing protocol of the proxy (src/ffa/proxy.rs:498-847) and its share records
(src/ffa/stub_spmc.rs:87-208), over the translations of the VMs. */
module ShareProtocol {
  import opened Descriptor
  import opened PageTable

  const MAX_VMS := 2
  const MAX_SHARES := 16
  const MAX_SHARE_RANGES := 4

  type Translation = map<PageNo, Leaf>

  /** `count` pages from the page that holds address `base`. */
  datatype Range = Range(base: nat, count: nat)

  datatype Record = Record(handle: nat, sender: nat, receiver: nat, ranges: seq<Range>,
                           active: bool, isLend: bool, retrieved: bool)

  /** The translations of the VMs, the share records and the handle counter. */
  datatype Sys = Sys(views: seq<Translation>, records: seq<Record>, nextHandle: nat)

  datatype Reply = Success(handle: nat) | Retrieved | Done | InvalidParameters | Denied | NoMemory

  // ---- pages ----

  /** Addresses stay below 2^48. */
  predicate InRange(r: Range) { r.base / 4096 + r.count <= PAGES }

  predicate RangesOk(ranges: seq<Range>) { forall r <- ranges :: InRange(r) }

  function PageAt(r: Range, k: nat): PageNo
    requires InRange(r) && k < r.count
  {
    r.base / 4096 + k
  }

  /** The pages of a range list, in order. */
  ghost function PageList(ranges: seq<Range>): seq<PageNo>
    requires RangesOk(ranges)
  {
    if ranges == [] then []
    else PageList(ranges[..|ranges| - 1]) + RangeList(ranges[|ranges| - 1], ranges[|ranges| - 1].count)
  }

  ghost function RangeList(r: Range, n: nat): seq<PageNo>
    requires InRange(r) && n <= r.count
  {
    seq(n, k requires 0 <= k < n => PageAt(r, k))
  }

  ghost function Pages(ranges: seq<Range>): set<PageNo>
    requires RangesOk(ranges)
  {
    set p <- PageList(ranges)
  }

  ghost predicate NoRepeat(ps: seq<PageNo>) { forall i, j :: 0 <= i < j < |ps| ==> ps[i] != ps[j] }

  // ---- translations ----

  /** The pages of `ps` that are mapped get a new ownership and permission. */
  ghost function SetPages(v: Translation, ps: set<PageNo>, sw: U2, s2ap: U2): Translation
  {
    map p <- v :: if p in ps then v[p].(sw := sw, s2ap := s2ap) else v[p]
  }

  function Borrowed(p: PageNo): Leaf { Leaf(p, NORMAL_ATTR, NORMAL_SHAF, 0, 0, S2AP_RW, SHARED_BORROWED) }

  ghost function MapPages(v: Translation, ps: set<PageNo>): Translation
  {
    map p | p in v.Keys + ps :: if p in ps then Borrowed(p) else v[p]
  }

  ghost predicate AllOwned(v: Translation, ps: set<PageNo>)
  {
    forall p <- ps :: p in v && v[p].sw == OWNED
  }

  /** Bit 0 of S2AP allows reads and bit 1 writes. */
  predicate Readable(l: Leaf) { l.s2ap % 2 == 1 }

  predicate Writable(l: Leaf) { l.s2ap / 2 == 1 }

  function Perm(isLend: bool): U2 { if isLend then S2AP_NONE else S2AP_RO }

  // ---- records ----

  /** The first active record with the handle. */
  function Find(records: seq<Record>, h: nat): Option<nat>
  {
    FindFrom(records, h, 0)
  }

  function FindFrom(records: seq<Record>, h: nat, i: nat): (r: Option<nat>)
    requires i <= |records|
    ensures r.Some? ==> i <= r.value < |records| && records[r.value].active && records[r.value].handle == h
    ensures r.Some? ==> forall k :: i <= k < r.value ==> !(records[k].active && records[k].handle == h)
    ensures r.None? ==> forall k :: i <= k < |records| ==> !(records[k].active && records[k].handle == h)
    decreases |records| - i
  {
    if i == |records| then None
    else if records[i].active && records[i].handle == h then Some(i)
    else FindFrom(records, h, i + 1)
  }

  /** The first inactive record. */
  function FirstFree(records: seq<Record>, i: nat): (r: Option<nat>)
    requires i <= |records|
    ensures r.Some? ==> i <= r.value < |records| && !records[r.value].active && forall k :: i <= k < r.value ==> records[k].active
    ensures r.None? ==> forall k :: i <= k < |records| ==> records[k].active
    decreases |records| - i
  {
    if i == |records| then None else if !records[i].active then Some(i) else FirstFree(records, i + 1)
  }

  function PartitionId(vm: nat): nat { vm + 1 }

  /** A VM (1 to 4) or a stub secure partition. */
  predicate ValidReceiver(id: nat) { 1 <= id <= 4 || id == 0x8001 || id == 0x8002 }

  function Kept(ranges: seq<Range>): seq<Range>
  {
    if |ranges| <= MAX_SHARE_RANGES then ranges else ranges[..MAX_SHARE_RANGES]
  }

  // ---- operations ----

  datatype Op =
    | Share(vm: nat, descSender: nat, receiver: nat, ranges: seq<Range>, isLend: bool)
    | Reclaim(vm: nat, handle: nat)
    | Retrieve(vm: nat, handle: nat, tablesFit: bool)
    | Relinquish(vm: nat, handle: nat)

  ghost predicate OpOk(op: Op) { op.vm < MAX_VMS && (op.Share? ==> RangesOk(op.ranges)) }

  ghost predicate SysOk(s: Sys)
  {
    && |s.views| == MAX_VMS && |s.records| == MAX_SHARES
    && forall r <- s.records :: RangesOk(r.ranges)
  }

  /** A valid receiver, a sender field that is absent or the caller, and pages that are all owned. */
  ghost predicate ShareAccepted(s: Sys, vm: nat, descSender: nat, receiver: nat, ranges: seq<Range>)
    requires SysOk(s) && vm < MAX_VMS && RangesOk(ranges)
  {
    && ValidReceiver(receiver) && (descSender == 0 || descSender == PartitionId(vm))
    && AllOwned(s.views[vm], Pages(ranges))
  }

  /** MEM_SHARE and MEM_LEND.  The pages change before a record is looked for. */
  ghost function ShareSpec(s: Sys, vm: nat, descSender: nat, receiver: nat, ranges: seq<Range>, isLend: bool): (Sys, Reply)
    requires SysOk(s) && vm < MAX_VMS && RangesOk(ranges)
  {
    if !ValidReceiver(receiver) || (descSender != 0 && descSender != PartitionId(vm)) then (s, InvalidParameters)
    else if !AllOwned(s.views[vm], Pages(ranges)) then (s, Denied)
    else
      var views := s.views[vm := SetPages(s.views[vm], Pages(ranges), SHARED_OWNED, Perm(isLend))];
      var h := s.nextHandle;
      match FirstFree(s.records, 0)
      case None => (Sys(views, s.records, h + 1), NoMemory)
      case Some(i) =>
        (Sys(views, s.records[i := Record(h, PartitionId(vm), receiver, Kept(ranges), true, isLend, false)], h + 1), Success(h))
  }

  /** MEM_RECLAIM.  The pages change in the tables of the caller. */
  ghost function ReclaimSpec(s: Sys, vm: nat, h: nat): (Sys, Reply)
    requires SysOk(s) && vm < MAX_VMS
  {
    match Find(s.records, h)
    case None => (s, InvalidParameters)
    case Some(i) =>
      var r := s.records[i];
      if r.retrieved then (s, Denied)
      else (Sys(s.views[vm := SetPages(s.views[vm], Pages(r.ranges), OWNED, S2AP_RW)],
                s.records[i := r.(active := false)], s.nextHandle), Done)
  }

  /** MEM_RETRIEVE_REQ.  `tablesFit` says that no table is missing that cannot be allocated. */
  ghost function RetrieveSpec(s: Sys, vm: nat, h: nat, tablesFit: bool): (Sys, Reply)
    requires SysOk(s) && vm < MAX_VMS
  {
    match Find(s.records, h)
    case None => (s, InvalidParameters)
    case Some(i) =>
      var r := s.records[i];
      if PartitionId(vm) != r.receiver || r.retrieved then (s, Denied)
      else if NoRepeat(PageList(r.ranges)) && Pages(r.ranges) !! s.views[vm].Keys && tablesFit then
        (Sys(s.views[vm := MapPages(s.views[vm], Pages(r.ranges))], s.records[i := r.(retrieved := true)], s.nextHandle), Retrieved)
      else (s, Denied)
  }

  /** MEM_RELINQUISH. */
  ghost function RelinquishSpec(s: Sys, vm: nat, h: nat): (Sys, Reply)
    requires SysOk(s) && vm < MAX_VMS
  {
    match Find(s.records, h)
    case None => (s, InvalidParameters)
    case Some(i) =>
      var r := s.records[i];
      if PartitionId(vm) != r.receiver || !r.retrieved then (s, Denied)
      else (Sys(s.views[vm := s.views[vm] - Pages(r.ranges)], s.records[i := r.(retrieved := false)], s.nextHandle), Done)
  }

  ghost function Step(s: Sys, op: Op): (Sys, Reply)
    requires SysOk(s) && OpOk(op)
  {
    match op
    case Share(vm, descSender, receiver, ranges, isLend) => ShareSpec(s, vm, descSender, receiver, ranges, isLend)
    case Reclaim(vm, h) => ReclaimSpec(s, vm, h)
    case Retrieve(vm, h, tablesFit) => RetrieveSpec(s, vm, h, tablesFit)
    case Relinquish(vm, h) => RelinquishSpec(s, vm, h)
  }

  // ---- the invariant ----

  predicate Sent(r: Record, vm: nat) { r.active && r.sender == PartitionId(vm) }

  predicate Held(r: Record, vm: nat) { r.active && r.retrieved && r.receiver == PartitionId(vm) }

  ghost predicate Covers(r: Record, p: PageNo) { RangesOk(r.ranges) && p in Pages(r.ranges) }

  ghost predicate SentCovers(records: seq<Record>, i: nat, vm: nat, p: PageNo)
  {
    i < |records| && Sent(records[i], vm) && Covers(records[i], p)
  }

  ghost predicate HeldCovers(records: seq<Record>, i: nat, vm: nat, p: PageNo)
  {
    i < |records| && Held(records[i], vm) && Covers(records[i], p)
  }

  /** A page is SharedOwned exactly when an active record sent by the VM covers it, and then the VM can
      read it if it was shared and not if it was lent, and cannot write it; it is SharedBorrowed exactly
      when an active retrieved record addressed to the VM covers it, and then it is mapped to itself and
      the VM can read and write it, as it can an Owned page. */
  ghost predicate VmInv(v: Translation, records: seq<Record>, vm: nat)
  {
    && (forall i: nat, p: PageNo :: SentCovers(records, i, vm, p) ==>
          p in v && v[p].sw == SHARED_OWNED && (Readable(v[p]) <==> !records[i].isLend) && !Writable(v[p]))
    && (forall p <- v :: v[p].sw == SHARED_OWNED ==> exists i: nat :: SentCovers(records, i, vm, p))
    && (forall i: nat, p: PageNo :: HeldCovers(records, i, vm, p) ==>
          p in v && v[p].sw == SHARED_BORROWED && v[p].out == p && Readable(v[p]) && Writable(v[p]))
    && (forall p <- v :: v[p].sw == SHARED_BORROWED ==> exists i: nat :: HeldCovers(records, i, vm, p))
    && (forall p <- v :: v[p].sw == OWNED ==> Readable(v[p]) && Writable(v[p]))
  }

  /** Active records have distinct handles and are sent, and held, by VMs; those of one sender, and those held by one receiver,
      cover disjoint pages. */
  ghost predicate RecordsInv(records: seq<Record>, nextHandle: nat)
  {
    && (forall i :: 0 <= i < |records| && records[i].active ==> records[i].handle < nextHandle && 1 <= records[i].sender <= MAX_VMS)
    && (forall i :: 0 <= i < |records| && records[i].active && records[i].retrieved ==> 1 <= records[i].receiver <= MAX_VMS)
    && (forall i, j :: 0 <= i < j < |records| && records[i].active && records[j].active ==> records[i].handle != records[j].handle)
    && (forall i: nat, j: nat, vm: nat, p: PageNo :: SentCovers(records, i, vm, p) && SentCovers(records, j, vm, p) ==> i == j)
    && (forall i: nat, j: nat, vm: nat, p: PageNo :: HeldCovers(records, i, vm, p) && HeldCovers(records, j, vm, p) ==> i == j)
  }

  ghost predicate Inv(s: Sys)
  {
    && SysOk(s)
    && RecordsInv(s.records, s.nextHandle)
    && forall vm: nat :: vm < MAX_VMS ==> VmInv(s.views[vm], s.records, vm)
  }
}
