/** The round-robin vCPU scheduler (src/scheduler.rs) and the scheduler iteration of a VM in
single-pCPU mode (src/vm.rs:501-602), as functions on values. */
module Scheduling {
  import opened Descriptor
  import opened Sizes

  const MAX_VCPUS := 8

  datatype RunState = Absent | Ready | Running | Blocked

  /** The scheduler, which vCPU slots are filled, and which vCPUs are marked online. */
  datatype Cpus = Cpus(states: seq<RunState>, current: Option<nat>, nextIdx: nat, present: seq<bool>, online: seq<bool>)

  predicate WellFormed(s: Cpus)
  {
    && |s.states| == MAX_VCPUS && |s.present| == MAX_VCPUS && |s.online| == MAX_VCPUS && s.nextIdx < MAX_VCPUS
    && (s.current.Some? ==> s.current.value < MAX_VCPUS)
  }

  /** How a vCPU came back from the guest. */
  datatype Exit = PowerOff | Wfi | Other

  /** What one iteration meets: a CPU_ON request, the vCPUs with a pending interrupt, and the exit of
      the vCPU that runs. */
  datatype Env = Env(cpuOn: Option<nat>, pending: seq<bool>, exit: Exit)

  // ---- the steps of an iteration ----

  /** CPU_ON creates and enqueues a vCPU whose slot was never filled. */
  function Boot(s: Cpus, request: Option<nat>): (r: Cpus)
    requires WellFormed(s)
    ensures WellFormed(r)
  {
    if request.Some? && request.value % 256 < MAX_VCPUS && !s.present[request.value % 256] then
      var id := request.value % 256;
      s.(states := s.states[id := Ready], present := s.present[id := true], online := s.online[id := true])
    else s
  }

  function Unblocked(x: RunState): RunState { if x == Blocked then Ready else x }

  /** Every present vCPU of `ids` that was blocked is ready. */
  function Unblock(s: Cpus, ids: seq<bool>): (r: Cpus)
    requires WellFormed(s) && |ids| == MAX_VCPUS
    ensures WellFormed(r)
  {
    s.(states := seq(MAX_VCPUS, i requires 0 <= i < MAX_VCPUS => if ids[i] && s.present[i] then Unblocked(s.states[i]) else s.states[i]))
  }

  /** How far slot `i` is from the slot where the scan starts. */
  function Distance(next: nat, i: nat): (d: nat)
    requires next < MAX_VCPUS && i < MAX_VCPUS
    ensures d < MAX_VCPUS
  {
    if next <= i then i - next else i + MAX_VCPUS - next
  }

  /** The slot at a distance. */
  function SlotAt(next: nat, d: nat): (i: nat)
    requires next < MAX_VCPUS && d < MAX_VCPUS
    ensures i < MAX_VCPUS
  {
    (next + d) % MAX_VCPUS
  }

  /** The ready vCPU nearest to `next`. */
  predicate IsNext(states: seq<RunState>, next: nat, c: nat)
    requires |states| == MAX_VCPUS && next < MAX_VCPUS
  {
    && c < MAX_VCPUS && states[c] == Ready
    && forall i: nat :: i < MAX_VCPUS && states[i] == Ready ==> Distance(next, c) <= Distance(next, i)
  }

  /** The circular scan from `next` finds a ready slot after `d` steps and none before. */
  ghost predicate FoundAfter(states: seq<RunState>, next: nat, c: nat, d: int)
    requires |states| == MAX_VCPUS
  {
    0 <= d < 8 && c == (next + d) % 8 && states[c] == Ready && forall e :: 0 <= e < d ==> Skips(states, next, e)
  }

  ghost predicate Skips(states: seq<RunState>, next: nat, e: int)
    requires |states| == MAX_VCPUS
  {
    e >= 0 ==> states[(next + e) % 8] != Ready
  }

  lemma NextIsFirst(states: seq<RunState>, next: nat, c: nat)
    requires |states| == MAX_VCPUS && next < MAX_VCPUS
    ensures IsNext(states, next, c) <==> exists d :: FoundAfter(states, next, c, d)
  {
    hide Distance;
    if IsNext(states, next, c) {
      SlotDistance(next, c);
      forall e: nat | e < Distance(next, c) ensures Skips(states, next, e) { DistanceOfSlot(next, e); }
      assert FoundAfter(states, next, c, Distance(next, c));
    }
    if d :| FoundAfter(states, next, c, d) {
      DistanceOfSlot(next, d);
      forall i: nat | i < MAX_VCPUS && states[i] == Ready ensures Distance(next, c) <= Distance(next, i) {
        SlotDistance(next, i);
        assert Distance(next, i) < d ==> Skips(states, next, Distance(next, i));
      }
    }
  }

  lemma SlotDistance(next: nat, i: nat)
    requires next < MAX_VCPUS && i < MAX_VCPUS
    ensures SlotAt(next, Distance(next, i)) == i == (next + Distance(next, i)) % 8
  {
  }

  lemma DistanceOfSlot(next: nat, d: nat)
    requires next < MAX_VCPUS && d < MAX_VCPUS
    ensures SlotAt(next, d) == (next + d) % 8 && Distance(next, SlotAt(next, d)) == d
  {
  }

  function Dispatched(s: Cpus, c: nat): Cpus
    requires WellFormed(s) && c < MAX_VCPUS
  {
    s.(states := s.states[c := Running], current := Some(c))
  }

  /** The running vCPU comes back: off for good, blocked, or at the end of the queue. */
  function Returned(s: Cpus, exit: Exit): (r: Cpus)
    requires WellFormed(s) && s.current.Some?
    ensures WellFormed(r)
  {
    var c := s.current.value;
    match exit
    case PowerOff => s.(states := s.states[c := Absent], current := None)
    case Wfi => s.(states := s.states[c := Blocked], current := None, nextIdx := (c + 1) % MAX_VCPUS)
    case Other => s.(states := s.states[c := Ready], current := None, nextIdx := (c + 1) % MAX_VCPUS)
  }

  ghost predicate EnvOk(e: Env) { |e.pending| == MAX_VCPUS }

  /** Before the scheduler picks. */
  function Prepared(s: Cpus, e: Env): Cpus
    requires WellFormed(s) && |e.pending| == MAX_VCPUS
  {
    Unblock(Boot(s, e.cpuOn), e.pending)
  }

  /** One iteration, which ran `ran`; `mid` is the state while the guest runs. */
  ghost predicate Iteration(s: Cpus, e: Env, mid: Cpus, s': Cpus, ran: Option<nat>)
    requires WellFormed(s) && EnvOk(e)
  {
    var p := Prepared(s, e);
    match ran
    case Some(c) => IsNext(p.states, p.nextIdx, c) && mid == Dispatched(p, c) && s' == Returned(mid, e.exit)
    case None => (forall i: nat :: i < MAX_VCPUS ==> p.states[i] != Ready) && mid == p && s' == Unblock(p, p.online)
  }

  // ---- invariants ----

  /** Only filled slots are scheduled, and the running vCPU, if any, is the current one. */
  ghost predicate Inv(s: Cpus)
  {
    && WellFormed(s)
    && (forall i: nat :: i < MAX_VCPUS && s.states[i] != Absent ==> s.present[i])
    && (forall i: nat :: i < MAX_VCPUS ==> (s.states[i] == Running <==> s.current == Some(i)))
  }

  /** Booting and waking keep everything but wake every scheduled vCPU with an interrupt. */
  lemma PreparedKeeps(s: Cpus, e: Env)
    requires Inv(s) && s.current == None && EnvOk(e)
    ensures Inv(Prepared(s, e)) && Prepared(s, e).(states := s.states, present := s.present, online := s.online) == s
    ensures forall i: nat :: i < MAX_VCPUS && s.states[i] != Absent && e.pending[i] ==> Prepared(s, e).states[i] == Ready
    ensures forall i: nat :: i < MAX_VCPUS ==> (Removed(Prepared(s, e), i) <==> Removed(s, i))
    ensures forall i: nat :: i < MAX_VCPUS && s.states[i] != Absent ==> Prepared(s, e).states[i] != Absent
    ensures forall i: nat :: i < MAX_VCPUS && s.states[i] == Ready ==> Prepared(s, e).states[i] == Ready
    ensures forall i: nat :: i < MAX_VCPUS && s.states[i] == Blocked && !e.pending[i] ==> Prepared(s, e).states[i] == Blocked
  {
  }

  /** An iteration starts and ends with no vCPU running; in between one is. */
  lemma IterationKeeps(s: Cpus, e: Env, mid: Cpus, s': Cpus, ran: Option<nat>)
    requires Inv(s) && s.current == None && EnvOk(e) && Iteration(s, e, mid, s', ran)
    ensures Inv(mid) && mid.current == ran && (ran.Some? ==> mid.present[ran.value])
    ensures Inv(s') && s'.current == None
  {
    hide Prepared;
    PreparedKeeps(s, e);
  }

  /** A vCPU that was powered off. */
  predicate Removed(s: Cpus, i: nat)
    requires WellFormed(s) && i < MAX_VCPUS
  {
    s.present[i] && s.states[i] == Absent
  }

  /** Powering off is for good. */
  lemma RemovedStays(s: Cpus, e: Env, mid: Cpus, s': Cpus, ran: Option<nat>, i: nat)
    requires Inv(s) && s.current == None && EnvOk(e) && Iteration(s, e, mid, s', ran) && i < MAX_VCPUS && Removed(s, i)
    ensures Removed(s', i) && ran != Some(i)
  {
    hide Prepared;
    PreparedKeeps(s, e);
  }

  // ---- liveness ----

  /** Scheduled and still there. */
  predicate Alive(s: Cpus, t: nat)
    requires WellFormed(s)
  {
    t < MAX_VCPUS && s.states[t] != Absent
  }

  /** The vCPUs that may run before `t`: nearer to the start of the scan and not powered off. */
  ghost function Ahead(s: Cpus, t: nat): set<nat>
    requires WellFormed(s) && t < MAX_VCPUS
  {
    set i: nat | i < MAX_VCPUS && Distance(s.nextIdx, i) < Distance(s.nextIdx, t) && !Removed(s, i)
  }

  lemma AheadCount(s: Cpus, t: nat)
    requires WellFormed(s) && t < MAX_VCPUS
    ensures |Ahead(s, t)| < MAX_VCPUS
  {
    assert t !in Ahead(s, t);
    SubsetSize(Ahead(s, t) + {t}, {0, 1, 2, 3, 4, 5, 6, 7});
  }

  /** Once the scan starts behind `c`, what is nearer than `t` was nearer before, and is not `c`. */
  lemma DistanceStep(next: nat, c: nat, t: nat, i: nat)
    requires next < MAX_VCPUS && c < MAX_VCPUS && t < MAX_VCPUS && i < MAX_VCPUS
    requires Distance(next, c) < Distance(next, t)
    ensures var n := (c + 1) % MAX_VCPUS; Distance(n, i) < Distance(n, t) ==> i != c && Distance(next, i) < Distance(next, t)
  {
  }

  lemma SameDistance(next: nat, c: nat, t: nat)
    requires next < MAX_VCPUS && c < MAX_VCPUS && t < MAX_VCPUS && Distance(next, c) == Distance(next, t)
    ensures c == t
  {
  }

  /** While a ready `t` waits, every iteration runs a vCPU ahead of it, which then no longer is; no other
      gets ahead, not even one that boots; and `t` stays ready. */
  lemma WaitStep(s: Cpus, e: Env, mid: Cpus, s': Cpus, ran: Option<nat>, t: nat)
    requires Inv(s) && s.current == None && EnvOk(e) && Iteration(s, e, mid, s', ran)
    requires t < MAX_VCPUS && Prepared(s, e).states[t] == Ready && ran != Some(t)
    ensures ran.Some? && Inv(s') && s'.current == None && s'.states[t] == Ready
    ensures ran.value in Ahead(s, t) && Ahead(s', t) <= Ahead(s, t) - {ran.value}
  {
    hide Prepared, Distance;
    PreparedKeeps(s, e);
    IterationKeeps(s, e, mid, s', ran);
    var c := ran.value;
    if Distance(s.nextIdx, c) == Distance(s.nextIdx, t) { SameDistance(s.nextIdx, c, t); }
    forall i <- Ahead(s', t) ensures i in Ahead(s, t) - {c} {
      if e.exit != PowerOff { DistanceStep(s.nextIdx, c, t, i); }
      if Removed(s, i) { RemovedStays(s, e, mid, s', ran, i); }
    }
  }

  /** What each exit does to the vCPU that ran. */
  lemma ExitEffect(s: Cpus, e: Env, mid: Cpus, s': Cpus, c: nat)
    requires Inv(s) && s.current == None && EnvOk(e) && Iteration(s, e, mid, s', Some(c))
    ensures c < MAX_VCPUS && WellFormed(s')
    ensures e.exit == PowerOff ==> Removed(s', c)
    ensures e.exit == Wfi ==> s'.states[c] == Blocked
    ensures e.exit == Other ==> s'.states[c] == Ready
    ensures s'.nextIdx == if e.exit == PowerOff then s.nextIdx else (c + 1) % 8
  {
    hide Prepared, Distance;
    PreparedKeeps(s, e);
    IterationKeeps(s, e, mid, s', Some(c));
  }

  /** A blocked vCPU without interrupt sleeps on as long as another one runs. */
  lemma SleepStep(s: Cpus, e: Env, mid: Cpus, s': Cpus, ran: Option<nat>, t: nat)
    requires Inv(s) && s.current == None && EnvOk(e) && Iteration(s, e, mid, s', ran)
    requires t < MAX_VCPUS && s.states[t] == Blocked && !e.pending[t]
    ensures ran != Some(t) && (ran.Some? ==> WellFormed(s') && s'.states[t] == Blocked)
  {
    hide Prepared, Distance;
    PreparedKeeps(s, e);
    IterationKeeps(s, e, mid, s', ran);
  }

  /** A run of iterations; `ran[k]` is the vCPU of iteration `k`. */
  ghost predicate IsRun(run: seq<Cpus>, envs: seq<Env>, mids: seq<Cpus>, ran: seq<Option<nat>>)
  {
    && |run| == |envs| + 1 && |mids| == |envs| && |ran| == |envs|
    && (forall k :: 0 <= k < |envs| ==> WellFormed(run[k]) && EnvOk(envs[k]) && Iteration(run[k], envs[k], mids[k], run[k + 1], ran[k]))
  }

  /** At most one vCPU runs, and it is there, in every state of every run. */
  lemma {:induction false} RunKeeps(run: seq<Cpus>, envs: seq<Env>, mids: seq<Cpus>, ran: seq<Option<nat>>, k: nat)
    requires IsRun(run, envs, mids, ran) && Inv(run[0]) && run[0].current == None && k < |run|
    ensures Inv(run[k]) && run[k].current == None
    ensures k < |mids| ==> Inv(mids[k]) && mids[k].current == ran[k]
  {
    hide Inv, Iteration;
    if k > 0 {
      RunKeeps(run, envs, mids, ran, k - 1);
      IterationKeeps(run[k - 1], envs[k - 1], mids[k - 1], run[k], ran[k - 1]);
    }
    if k < |mids| {
      IterationKeeps(run[k], envs[k], mids[k], run[k + 1], ran[k]);
    }
  }

  lemma {:induction false} Waited(run: seq<Cpus>, envs: seq<Env>, mids: seq<Cpus>, ran: seq<Option<nat>>, t: nat, k: nat)
    requires IsRun(run, envs, mids, ran) && Inv(run[0]) && run[0].current == None && k <= |envs| && envs != []
    requires t < MAX_VCPUS && Prepared(run[0], envs[0]).states[t] == Ready && forall j :: 0 <= j < k ==> ran[j] != Some(t)
    ensures Inv(run[k]) && run[k].current == None && (k < |envs| ==> Prepared(run[k], envs[k]).states[t] == Ready)
    ensures k + |Ahead(run[k], t)| <= |Ahead(run[0], t)|
  {
    hide Iteration, Ahead, Prepared;
    if k > 0 {
      Waited(run, envs, mids, ran, t, k - 1);
      WaitStep(run[k - 1], envs[k - 1], mids[k - 1], run[k], ran[k - 1], t);
      SubsetSize(Ahead(run[k], t), Ahead(run[k - 1], t) - {ran[k - 1].value});
      if k < |envs| { PreparedKeeps(run[k], envs[k]); }
    }
  }

  /** A vCPU that is ready, or is made ready by an interrupt or by CPU_ON, runs after at most one turn of
      each vCPU ahead of it, whatever vCPUs boot, block or power off. */
  lemma RunsWithin(run: seq<Cpus>, envs: seq<Env>, mids: seq<Cpus>, ran: seq<Option<nat>>, t: nat) returns (k: nat)
    requires IsRun(run, envs, mids, ran) && Inv(run[0]) && run[0].current == None && t < MAX_VCPUS
    requires |envs| > |Ahead(run[0], t)| && Prepared(run[0], envs[0]).states[t] == Ready
    ensures k <= |Ahead(run[0], t)| < MAX_VCPUS && ran[k] == Some(t) && forall j :: 0 <= j < k ==> ran[j] != Some(t)
  {
    hide Iteration, Inv, Ahead, Prepared;
    var n := |Ahead(run[0], t)| + 1;
    AheadCount(run[0], t);
    k := 0;
    while k < n && ran[k] != Some(t)
      invariant k <= n && forall j :: 0 <= j < k ==> ran[j] != Some(t)
    {
      k := k + 1;
    }
    if k == n {
      Waited(run, envs, mids, ran, t, n);
      assert false;
    }
  }
}
