/** Whole runs of a VM's scheduler iterations with the pending interrupt words: an interrupt that is
pending for a vCPU reaches it. */
module VmRun {
  import opened Descriptor
  import opened Scheduling
  import opened Interrupts

  /** The scheduler and the pending words of a VM. */
  datatype VmState = VmState(cpus: Cpus, sgis: seq<set<nat>>, spis: seq<set<nat>>)

  ghost predicate VmOk(v: VmState) { WellFormed(v.cpus) && |v.sgis| == MAX_VCPUS && |v.spis| == MAX_VCPUS }

  /** Which vCPUs have a pending interrupt. */
  function Flags(sgis: seq<set<nat>>, spis: seq<set<nat>>): (r: seq<bool>)
    requires |sgis| == MAX_VCPUS && |spis| == MAX_VCPUS
    ensures |r| == MAX_VCPUS
  {
    seq(MAX_VCPUS, i requires 0 <= i < MAX_VCPUS => sgis[i] != {} || spis[i] != {})
  }

  /** The words of `i` lose no bit. */
  ghost predicate Grows(v: VmState, v': VmState, i: nat)
    requires VmOk(v) && VmOk(v') && i < MAX_VCPUS
  {
    v.sgis[i] <= v'.sgis[i] && v.spis[i] <= v'.spis[i]
  }

  /** The words and registers of a vCPU at guest entry. */
  datatype Entry = Entry(sgis: set<nat>, spis: set<nat>, lrs: seq<Lr>)

  /** Every interrupt pending for `i` is in a register, or still pending while no register is free. */
  ghost predicate Enters(v: VmState, i: nat, entry: Entry)
    requires VmOk(v) && i < MAX_VCPUS
  {
    Entered(v.sgis[i], entry.sgis, entry.lrs, 16, 0) && Entered(v.spis[i], entry.spis, entry.lrs, 32, 32)
  }

  /** One iteration: from `start` to `end`, with a CPU_ON request and an exit; `mid` is the scheduler
      while `ran` is in the guest, and `entry` what `ran` entered it with. */
  datatype Turn = Turn(start: VmState, cpuOn: Option<nat>, exit: Exit, mid: Cpus, end: VmState, ran: Option<nat>, entry: Entry)

  ghost function EnvOf(t: Turn): Env
    requires VmOk(t.start)
  {
    Env(t.cpuOn, Flags(t.start.sgis, t.start.spis), t.exit)
  }

  ghost predicate TurnOk(t: Turn)
  {
    && VmOk(t.start) && VmOk(t.end)
    && Iteration(t.start.cpus, EnvOf(t), t.mid, t.end.cpus, t.ran)
    && (forall i: nat :: i < MAX_VCPUS && t.ran != Some(i) ==> Grows(t.start, t.end, i))
    && (t.ran.Some? ==> t.ran.value < MAX_VCPUS && Enters(t.start, t.ran.value, t.entry))
  }

  /** Between two turns the scheduler stands still and bits may be raised. */
  ghost predicate Follows(t: Turn, t': Turn)
    requires TurnOk(t) && TurnOk(t')
  {
    t'.start.cpus == t.end.cpus && forall i: nat :: i < MAX_VCPUS ==> Grows(t.end, t'.start, i)
  }

  ghost predicate IsVmRun(turns: seq<Turn>)
  {
    (forall t <- turns :: TurnOk(t)) && forall k :: 0 <= k < |turns| - 1 ==> Follows(turns[k], turns[k + 1])
  }

  // ---- the scheduler's part of a run ----

  ghost function CpusOf(turns: seq<Turn>): seq<Cpus>
    requires turns != []
  {
    seq(|turns| + 1, k requires 0 <= k <= |turns| => if k < |turns| then turns[k].start.cpus else turns[|turns| - 1].end.cpus)
  }

  ghost function EnvsOf(turns: seq<Turn>): seq<Env>
    requires forall t <- turns :: VmOk(t.start)
  {
    seq(|turns|, k requires 0 <= k < |turns| => EnvOf(turns[k]))
  }

  ghost function MidsOf(turns: seq<Turn>): seq<Cpus> { seq(|turns|, k requires 0 <= k < |turns| => turns[k].mid) }

  ghost function RanOf(turns: seq<Turn>): seq<Option<nat>> { seq(|turns|, k requires 0 <= k < |turns| => turns[k].ran) }

  lemma RunOf(turns: seq<Turn>)
    requires IsVmRun(turns) && turns != []
    ensures Scheduling.IsRun(CpusOf(turns), EnvsOf(turns), MidsOf(turns), RanOf(turns))
  {
    hide Iteration, Flags;
    forall k | 0 <= k < |turns|
      ensures WellFormed(CpusOf(turns)[k]) && EnvOk(EnvsOf(turns)[k])
      ensures Iteration(CpusOf(turns)[k], EnvsOf(turns)[k], MidsOf(turns)[k], CpusOf(turns)[k + 1], RanOf(turns)[k])
    {
      assert turns[k] in turns;
      if k < |turns| - 1 { assert Follows(turns[k], turns[k + 1]); }
    }
  }

  /** No word loses a bit until its vCPU runs: only the vCPU that is dispatched takes its words. */
  lemma {:induction false} StaysPending(turns: seq<Turn>, t: nat, k: nat)
    requires IsVmRun(turns) && t < MAX_VCPUS && k < |turns|
    requires forall j :: 0 <= j < k ==> turns[j].ran != Some(t)
    ensures TurnOk(turns[0]) && TurnOk(turns[k]) && Grows(turns[0].start, turns[k].start, t)
  {
    hide Iteration, Flags, Entered;
    assert turns[0] in turns && turns[k] in turns;
    if k > 0 {
      StaysPending(turns, t, k - 1);
      assert Follows(turns[k - 1], turns[k - 1 + 1]);
      assert Grows(turns[k - 1].start, turns[k - 1].end, t) && Grows(turns[k - 1].end, turns[k].start, t);
    }
  }

  /** No vCPU runs between turns, and the scheduler's invariant holds. */
  lemma {:induction false} TurnInv(turns: seq<Turn>, k: nat)
    requires IsVmRun(turns) && k < |turns| && Inv(turns[0].start.cpus) && turns[0].start.cpus.current == None
    ensures TurnOk(turns[k]) && Inv(turns[k].start.cpus) && turns[k].start.cpus.current == None
  {
    hide Iteration, Inv, Flags, Entered;
    assert turns[k] in turns;
    if k > 0 {
      TurnInv(turns, k - 1);
      var t := turns[k - 1];
      assert Follows(turns[k - 1], turns[k - 1 + 1]);
      IterationKeeps(t.start.cpus, EnvOf(t), t.mid, t.end.cpus, t.ran);
    }
  }

  lemma LaterTurns(turns: seq<Turn>, k: nat)
    requires IsVmRun(turns) && k < |turns|
    ensures IsVmRun(turns[k..])
  {
    hide TurnOk;
    var rest := turns[k..];
    assert forall t <- rest :: t in turns;
    forall j | 0 <= j < |rest| - 1 ensures Follows(rest[j], rest[j + 1]) { assert Follows(turns[k + j], turns[k + j + 1]); }
  }

  // ---- exits ----

  /** Once a vCPU has powered off, it never runs again. */
  lemma {:induction false} PoweredOff(turns: seq<Turn>, k: nat, j: nat, c: nat)
    requires IsVmRun(turns) && k < j < |turns| && Inv(turns[0].start.cpus) && turns[0].start.cpus.current == None
    requires turns[k].ran == Some(c) && turns[k].exit == PowerOff
    ensures c < MAX_VCPUS && WellFormed(turns[j].start.cpus) && Removed(turns[j].start.cpus, c) && turns[j].ran != Some(c)
  {
    hide Iteration, Inv, Flags, Entered, Removed;
    TurnInv(turns, j);
    TurnInv(turns, j - 1);
    var t, u := turns[j - 1], turns[j];
    assert Follows(turns[j - 1], turns[j - 1 + 1]);
    if j == k + 1 {
      ExitEffect(t.start.cpus, EnvOf(t), t.mid, t.end.cpus, c);
    } else {
      PoweredOff(turns, k, j - 1, c);
      RemovedStays(t.start.cpus, EnvOf(t), t.mid, t.end.cpus, t.ran, c);
    }
    RemovedStays(u.start.cpus, EnvOf(u), u.mid, u.end.cpus, u.ran, c);
  }

  ghost predicate HasPending(v: VmState, c: nat)
    requires VmOk(v) && c < MAX_VCPUS
  {
    v.sgis[c] != {} || v.spis[c] != {}
  }

  /** Something that wakes `c` in turn `m`: an interrupt, or an earlier turn in which nothing was ready. */
  ghost predicate Wakes(turns: seq<Turn>, m: int, j: int, c: nat)
    requires c < MAX_VCPUS
  {
    0 <= m <= j < |turns| && VmOk(turns[m].start) && (HasPending(turns[m].start, c) || (m < j && turns[m].ran == None))
  }

  lemma {:induction false} Asleep(turns: seq<Turn>, k: nat, j: nat, c: nat)
    requires IsVmRun(turns) && k < j < |turns| && Inv(turns[0].start.cpus) && turns[0].start.cpus.current == None
    requires turns[k].ran == Some(c) && turns[k].exit == Wfi && c < MAX_VCPUS
    requires forall m :: k < m < j ==> !Wakes(turns, m, j, c)
    ensures WellFormed(turns[j].start.cpus) && turns[j].start.cpus.states[c] == Blocked
  {
    hide Iteration, Inv, Entered;
    TurnInv(turns, j);
    TurnInv(turns, j - 1);
    var t := turns[j - 1];
    assert Follows(turns[j - 1], turns[j - 1 + 1]);
    if j == k + 1 {
      ExitEffect(t.start.cpus, EnvOf(t), t.mid, t.end.cpus, c);
    } else {
      var i := j - 1;
      forall m | k < m < i ensures !Wakes(turns, m, i, c) { assert !Wakes(turns, m, j, c); }
      Asleep(turns, k, j - 1, c);
      assert !Wakes(turns, j - 1, j, c);
      SleepStep(t.start.cpus, EnvOf(t), t.mid, t.end.cpus, t.ran, c);
    }
  }

  /** After WFI a vCPU runs again only once it has a pending interrupt or nothing was ready. */
  lemma SleepsUntilWoken(turns: seq<Turn>, k: nat, j: nat, c: nat)
    requires IsVmRun(turns) && k < j < |turns| && Inv(turns[0].start.cpus) && turns[0].start.cpus.current == None
    requires turns[k].ran == Some(c) && turns[k].exit == Wfi && turns[j].ran == Some(c)
    ensures c < MAX_VCPUS && exists m :: k < m <= j && Wakes(turns, m, j, c)
  {
    hide Iteration, Inv, Entered;
    TurnInv(turns, k);
    TurnInv(turns, j);
    if forall m :: k < m < j ==> !Wakes(turns, m, j, c) {
      Asleep(turns, k, j, c);
      var u := turns[j];
      if !HasPending(u.start, c) { SleepStep(u.start.cpus, EnvOf(u), u.mid, u.end.cpus, u.ran, c); }
      assert Wakes(turns, j, j, c);
    }
  }

  /** After any other exit it is ready, and runs again after at most one turn of each vCPU ahead of it. */
  lemma RunsAgain(turns: seq<Turn>, k: nat, c: nat)
    requires IsVmRun(turns) && k + 1 < |turns| && Inv(turns[0].start.cpus) && turns[0].start.cpus.current == None
    requires turns[k].ran == Some(c) && turns[k].exit == Other
    ensures c < MAX_VCPUS && WellFormed(turns[k + 1].start.cpus) && turns[k + 1].start.cpus.states[c] == Ready
    ensures |turns| - (k + 1) > |Ahead(turns[k + 1].start.cpus, c)| ==>
              exists j :: k < j <= k + 1 + |Ahead(turns[k + 1].start.cpus, c)| && turns[j].ran == Some(c)
  {
    hide Iteration, Inv, Flags, Entered, Ahead;
    TurnInv(turns, k);
    TurnInv(turns, k + 1);
    var t := turns[k];
    assert Follows(turns[k], turns[k + 1]);
    ExitEffect(t.start.cpus, EnvOf(t), t.mid, t.end.cpus, c);
    PreparedKeeps(turns[k + 1].start.cpus, EnvOf(turns[k + 1]));
    LaterTurns(turns, k + 1);
    if |turns| - (k + 1) > |Ahead(turns[k + 1].start.cpus, c)| {
      var j := FirstRun(turns[k + 1..], c);
      assert turns[k + 1 + j].ran == Some(c);
    }
  }

  /** If nothing is ready, every vCPU that is online and blocked becomes ready, and no other changes. */
  lemma IdleWakes(t: Turn, i: nat)
    requires TurnOk(t) && Inv(t.start.cpus) && t.start.cpus.current == None && t.ran == None && i < MAX_VCPUS
    ensures WellFormed(t.end.cpus) && t.end.cpus.states[i] == if t.start.cpus.online[i] && t.start.cpus.states[i] == Blocked then Ready else t.start.cpus.states[i]
  {
    hide Entered;
    PreparedKeeps(t.start.cpus, EnvOf(t));
  }

  lemma FirstRun(turns: seq<Turn>, c: nat) returns (k: nat)
    requires IsVmRun(turns) && turns != [] && TurnOk(turns[0]) && Inv(turns[0].start.cpus) && turns[0].start.cpus.current == None && c < MAX_VCPUS
    requires Prepared(turns[0].start.cpus, EnvOf(turns[0])).states[c] == Ready && |turns| > |Ahead(turns[0].start.cpus, c)|
    ensures k <= |Ahead(turns[0].start.cpus, c)| < MAX_VCPUS && turns[k].ran == Some(c) && forall j :: 0 <= j < k ==> turns[j].ran != Some(c)
  {
    hide Iteration, Ahead, Inv, Entered, Prepared, Flags;
    RunOf(turns);
    k := RunsWithin(CpusOf(turns), EnvsOf(turns), MidsOf(turns), RanOf(turns), c);
    forall j | 0 <= j < k ensures turns[j].ran != Some(c) { assert RanOf(turns)[j] != Some(c); }
    assert turns[k].ran == RanOf(turns)[k];
  }

  /** CPU_ON for a slot that was never filled: the vCPU is there and online, and runs after at most one
      turn of each vCPU ahead of it. */
  lemma CpuOnRuns(turns: seq<Turn>, request: nat)
    requires IsVmRun(turns) && turns != [] && TurnOk(turns[0]) && Inv(turns[0].start.cpus) && turns[0].start.cpus.current == None
    requires turns[0].cpuOn == Some(request) && request % 256 < MAX_VCPUS && !turns[0].start.cpus.present[request % 256]
    ensures var id := request % 256; turns[0].end.cpus.present[id] && turns[0].end.cpus.online[id]
    ensures |turns| > |Ahead(turns[0].start.cpus, request % 256)| ==>
              exists k :: 0 <= k <= |Ahead(turns[0].start.cpus, request % 256)| < MAX_VCPUS && turns[k].ran == Some(request % 256)
  {
    hide Ahead, Entered, Flags, Distance;
    var id, t := request % 256, turns[0];
    assert Prepared(t.start.cpus, EnvOf(t)).states[id] == Ready;
    if |turns| > |Ahead(t.start.cpus, id)| { var k := FirstRun(turns, id); }
  }

  // ---- from raising to the guest ----

  /** A scheduled vCPU with a pending interrupt runs after at most one turn of each vCPU ahead of it,
      so within eight iterations, whatever vCPUs boot, block or power off; and it enters the guest with
      each of these interrupts in a register, or still pending while no register is free. */
  lemma WakeToRun(turns: seq<Turn>, t: nat)
    requires IsVmRun(turns) && turns != [] && TurnOk(turns[0]) && Inv(turns[0].start.cpus) && turns[0].start.cpus.current == None
    requires Alive(turns[0].start.cpus, t) && |turns| > |Ahead(turns[0].start.cpus, t)|
    requires HasPending(turns[0].start, t)
    ensures |Ahead(turns[0].start.cpus, t)| < MAX_VCPUS
    ensures exists k :: 0 <= k <= |Ahead(turns[0].start.cpus, t)| && turns[k].ran == Some(t) && Enters(turns[0].start, t, turns[k].entry)
  {
    hide Iteration, Ahead, Inv, Entered;
    PreparedKeeps(turns[0].start.cpus, EnvOf(turns[0]));
    var k := FirstRun(turns, t);
    StaysPending(turns, t, k);
    SmallerEnters(turns[0].start, turns[k].start, t, turns[k].entry);
  }

  /** An interrupt that is pending when a turn ends, such as an SGI that the vCPU sent in that turn,
      reaches a scheduled vCPU after at most one turn of each vCPU ahead of it. */
  lemma SentArrives(turns: seq<Turn>, k: nat, t: nat)
    requires IsVmRun(turns) && k + 1 < |turns| && Inv(turns[0].start.cpus) && turns[0].start.cpus.current == None && TurnOk(turns[k]) && TurnOk(turns[k + 1])
    requires Alive(turns[k + 1].start.cpus, t) && HasPending(turns[k].end, t) && |turns| - (k + 1) > |Ahead(turns[k + 1].start.cpus, t)|
    ensures exists j :: k < j <= k + 1 + |Ahead(turns[k + 1].start.cpus, t)| && turns[j].ran == Some(t) && Enters(turns[k].end, t, turns[j].entry)
  {
    hide Iteration, Ahead, Inv, Entered, Flags;
    TurnInv(turns, k + 1);
    LaterTurns(turns, k + 1);
    assert Follows(turns[k], turns[k + 1]) && Grows(turns[k].end, turns[k + 1].start, t);
    var rest := turns[k + 1..];
    WakeToRun(rest, t);
    var j :| 0 <= j <= |Ahead(rest[0].start.cpus, t)| && rest[j].ran == Some(t) && Enters(rest[0].start, t, rest[j].entry);
    SmallerEnters(turns[k].end, rest[0].start, t, rest[j].entry);
    assert turns[k + 1 + j] == rest[j];
  }

  lemma SmallerEnters(v: VmState, v': VmState, i: nat, entry: Entry)
    requires VmOk(v) && VmOk(v') && i < MAX_VCPUS && Grows(v, v', i) && Enters(v', i, entry)
    ensures Enters(v, i, entry)
  {
  }
}
