/** The scheduler object (src/scheduler.rs) and a VM's scheduler iteration (src/vm.rs:501-602), with the
interrupts that it delivers and that are raised meanwhile. */
module VmLoop {
  import opened Descriptor
  import opened Scheduling
  import opened Interrupts
  import opened VmRun

  class Scheduler {
    const states: array<RunState>
    var current: Option<nat>
    var nextIdx: nat

    ghost predicate Valid()
      reads this
    {
      states.Length == MAX_VCPUS && nextIdx < MAX_VCPUS && (current.Some? ==> current.value < MAX_VCPUS)
    }

    constructor ()
      ensures Valid() && fresh(states) && current == None && nextIdx == 0 && forall x <- states[..] :: x == Absent
    {
      states := new RunState[MAX_VCPUS](_ => Absent);
      current, nextIdx := None, 0;
    }

    method AddVcpu(id: nat)
      requires Valid()
      modifies states
      ensures states[..] == if id < MAX_VCPUS then old(states[..])[id := Ready] else old(states[..])
    {
      if id < MAX_VCPUS { states[id] := Ready; }
    }

    method RemoveVcpu(id: nat)
      requires Valid()
      modifies this, states
      ensures Valid() && nextIdx == old(nextIdx)
      ensures states[..] == if id < MAX_VCPUS then old(states[..])[id := Absent] else old(states[..])
      ensures current == if old(current) == Some(id) then None else old(current)
    {
      if id < MAX_VCPUS {
        states[id] := Absent;
        if current == Some(id) { current := None; }
      }
    }

    /** The vCPU that runs, else the nearest ready one. */
    method PickNext() returns (r: Option<nat>)
      requires Valid()
      modifies this, states
      ensures Valid() && nextIdx == old(nextIdx)
      ensures if old(current.Some? && states[current.value] == Running)
              then r == old(current) && current == old(current) && states[..] == old(states[..])
              else match r
                case Some(c) => IsNext(old(states[..]), nextIdx, c) && states[..] == old(states[..])[c := Running] && current == r
                case None => Ready !in old(states[..]) && states[..] == old(states[..]) && current == old(current)
    {
      if current.Some? && states[current.value] == Running { return current; }
      for i := 0 to MAX_VCPUS
        invariant Valid() && current == old(current) && nextIdx == old(nextIdx) && states[..] == old(states[..])
        invariant forall d: nat :: d < i ==> states[SlotAt(nextIdx, d)] != Ready
      {
        var idx := SlotAt(nextIdx, i);
        if states[idx] == Ready {
          NearestIs(states[..], nextIdx, i);
          current := Some(idx);
          states[idx] := Running;
          return Some(idx);
        }
      }
      NoneReady(states[..], nextIdx);
      return None;
    }

    method YieldCurrent()
      requires Valid()
      modifies this, states
      ensures Valid() && current == None
      ensures match old(current)
              case Some(c) => states[..] == old(states[..])[c := Ready] && nextIdx == (c + 1) % MAX_VCPUS
              case None => states[..] == old(states[..]) && nextIdx == old(nextIdx)
    {
      if current.Some? {
        var id := current.value;
        states[id] := Ready;
        current, nextIdx := None, (id + 1) % MAX_VCPUS;
      }
    }

    method BlockCurrent()
      requires Valid()
      modifies this, states
      ensures Valid() && current == None
      ensures match old(current)
              case Some(c) => states[..] == old(states[..])[c := Blocked] && nextIdx == (c + 1) % MAX_VCPUS
              case None => states[..] == old(states[..]) && nextIdx == old(nextIdx)
    {
      if current.Some? {
        var id := current.value;
        states[id] := Blocked;
        current, nextIdx := None, (id + 1) % MAX_VCPUS;
      }
    }

    method Unblock(id: nat)
      requires Valid()
      modifies states
      ensures states[..] == if id < MAX_VCPUS then old(states[..])[id := Unblocked(old(states[id]))] else old(states[..])
    {
      if id < MAX_VCPUS && states[id] == Blocked { states[id] := Ready; }
    }
  }

  lemma NearestIs(states: seq<RunState>, next: nat, i: nat)
    requires |states| == MAX_VCPUS && next < MAX_VCPUS && i < MAX_VCPUS && states[SlotAt(next, i)] == Ready
    requires forall d: nat :: d < i ==> states[SlotAt(next, d)] != Ready
    ensures IsNext(states, next, SlotAt(next, i))
  {
    hide Distance, SlotAt;
    DistanceOfSlot(next, i);
    forall j: nat | j < MAX_VCPUS && states[j] == Ready ensures i <= Distance(next, j) { SlotDistance(next, j); }
  }

  lemma NoneReady(states: seq<RunState>, next: nat)
    requires |states| == MAX_VCPUS && next < MAX_VCPUS
    requires forall d: nat :: d < MAX_VCPUS ==> states[SlotAt(next, d)] != Ready
    ensures Ready !in states
  {
    hide Distance, SlotAt;
    forall j | 0 <= j < |states| ensures states[j] != Ready { SlotDistance(next, j); }
  }

  /** What happens while the guest runs: a trapped SGI write, a device's interrupt, the flush before
      the guest continues, and the guest's own use of its registers. */
  datatype Trap = SgiWrite(value: nat, numLrs: nat) | Spi(intid: nat, target: nat) | Flush(numLrs: nat) | Registers(lrs: seq<Lr>)

  /** What one iteration meets: a CPU_ON request, the interrupts of drained devices as INTID and
      target, the traps of the vCPU that runs, and its exit. */
  datatype Stimulus = Stimulus(cpuOn: Option<nat>, drained: seq<(nat, nat)>, traps: seq<Trap>, exit: Exit)

  /** Words grow but for one. */
  ghost predicate GrowBut(words: seq<set<nat>>, words': seq<set<nat>>, id: nat)
  {
    |words'| == |words| && forall k :: 0 <= k < |words| && k != id ==> words[k] <= words'[k]
  }

  ghost predicate Grow(words: seq<set<nat>>, words': seq<set<nat>>)
  {
    |words'| == |words| && forall k :: 0 <= k < |words| ==> words[k] <= words'[k]
  }

  /** What a trap of vCPU `c` raised for another vCPU is pending there. */
  ghost predicate Arrived(trap: Trap, c: nat, online: seq<bool>, sgis: seq<set<nat>>, spis: seq<set<nat>>)
    requires |online| == MAX_VCPUS && |sgis| == MAX_VCPUS && |spis| == MAX_VCPUS
  {
    match trap
    case SgiWrite(value, _) => forall id: nat :: id < MAX_VCPUS && QueuedFor(value, online, c, id) ==> SgiIntid(value) in sgis[id]
    case Spi(intid, target) => target < MAX_VCPUS && target != c && 32 <= intid <= 63 ==> intid - 32 in spis[target]
    case _ => true
  }

  /** So it is for all traps and drained devices. */
  ghost predicate AllArrived(stimulus: Stimulus, c: nat, online: seq<bool>, sgis: seq<set<nat>>, spis: seq<set<nat>>)
    requires |online| == MAX_VCPUS && |sgis| == MAX_VCPUS && |spis| == MAX_VCPUS
  {
    && (forall t <- stimulus.traps :: Arrived(t, c, online, sgis, spis))
    && (forall d <- stimulus.drained :: Arrived(Spi(d.0, d.1), c, online, sgis, spis))
  }

  lemma ArrivedStays(trap: Trap, c: nat, online: seq<bool>, sgis: seq<set<nat>>, spis: seq<set<nat>>, sgis': seq<set<nat>>, spis': seq<set<nat>>)
    requires |online| == MAX_VCPUS && |sgis| == MAX_VCPUS && |spis| == MAX_VCPUS && GrowBut(sgis, sgis', c) && GrowBut(spis, spis', c)
    requires Arrived(trap, c, online, sgis, spis)
    ensures Arrived(trap, c, online, sgis', spis')
  {
    hide SgiIntid, ToAll, Bit;
  }

  method MakeCpus() returns (cpus: seq<VirtualCpu>)
    ensures |cpus| == MAX_VCPUS && forall i :: 0 <= i < MAX_VCPUS ==> fresh(cpus[i]) && fresh(cpus[i].lrs) && cpus[i].Valid() && cpus[i].id == i
    ensures forall i, j :: 0 <= i < j < MAX_VCPUS ==> cpus[i].lrs != cpus[j].lrs
  {
    cpus := [];
    for n := 0 to MAX_VCPUS
      invariant |cpus| == n && forall i :: 0 <= i < n ==> fresh(cpus[i]) && fresh(cpus[i].lrs) && cpus[i].Valid() && cpus[i].id == i
      invariant forall i, j :: 0 <= i < j < n ==> cpus[i].lrs != cpus[j].lrs
    {
      var cpu := new VirtualCpu(n, Lr(0, false, false, 0, 0, 0));
      cpus := cpus + [cpu];
    }
  }

  class Vm {
    const scheduler: Scheduler
    /** Which slots hold a vCPU. */
    const present: array<bool>
    const state: VmGlobalState
    const cpus: seq<VirtualCpu>

    ghost predicate Valid()
      reads this, scheduler
    {
      && scheduler.Valid() && state.Valid() && present != state.online && present.Length == MAX_VCPUS
      && |cpus| == MAX_VCPUS && (forall i :: 0 <= i < MAX_VCPUS ==> cpus[i].Valid() && cpus[i].id == i)
      && (forall i, j :: 0 <= i < j < MAX_VCPUS ==> cpus[i].lrs != cpus[j].lrs)
    }

    ghost function Abs(): Cpus
      reads this, scheduler, scheduler.states, present, state.online
    {
      Cpus(scheduler.states[..], scheduler.current, scheduler.nextIdx, present[..], state.online[..])
    }

    ghost function State(): VmState
      reads this, scheduler, scheduler.states, present, state.online, state.sgis, state.spis
    {
      VmState(Abs(), state.sgis[..], state.spis[..])
    }

    constructor ()
      ensures Valid() && Inv(Abs()) && Abs().current == None
      ensures fresh(scheduler) && fresh(scheduler.states) && fresh(present) && fresh(state.online) && fresh(state.sgis) && fresh(state.spis)
      ensures forall c <- cpus :: fresh(c.lrs)
    {
      var made := MakeCpus();
      scheduler := new Scheduler();
      present := new bool[MAX_VCPUS](_ => false);
      state := new VmGlobalState();
      cpus := made;
      new;
      assert forall i: nat :: i < MAX_VCPUS ==> scheduler.states[i] in scheduler.states[..];
    }

    /** The CPU_ON part: `boot_secondary_vcpu` for a slot that was never filled. */
    method BootSecondary(request: Option<nat>)
      requires Valid()
      modifies scheduler.states, present, state.online
      ensures Abs() == Boot(old(Abs()), request)
    {
      if request.Some? {
        var id := request.value % 256;
        if id < MAX_VCPUS && !present[id] {
          present[id] := true;
          scheduler.AddVcpu(id);
          state.online[id] := true;
        }
      }
    }

    /** The two loops that unblock: those of `ids` whose slot is filled. */
    method UnblockAll(ids: seq<bool>) returns (any: bool)
      requires Valid() && |ids| == MAX_VCPUS
      modifies scheduler.states
      ensures Abs() == Unblock(old(Abs()), ids)
      ensures any <==> exists i :: 0 <= i < MAX_VCPUS && ids[i] && present[i]
    {
      any := false;
      for i := 0 to MAX_VCPUS
        invariant forall k :: 0 <= k < MAX_VCPUS ==>
                    scheduler.states[k] == if k < i && ids[k] && present[k] then Unblocked(old(scheduler.states[k])) else old(scheduler.states[k])
        invariant any <==> exists k :: 0 <= k < i && ids[k] && present[k]
      {
        if ids[i] && present[i] {
          scheduler.Unblock(i);
          any := true;
        }
      }
    }

    /** Drained UART and network devices raise their interrupts. */
    method Drain(drained: seq<(nat, nat)>)
      requires Valid()
      modifies state.spis
      ensures Grow(old(state.spis[..]), state.spis[..])
      ensures forall d <- drained :: d.1 < MAX_VCPUS && 32 <= d.0 <= 63 ==> d.0 - 32 in state.spis[d.1]
    {
      for k := 0 to |drained|
        invariant Grow(old(state.spis[..]), state.spis[..])
        invariant forall j :: 0 <= j < k ==> drained[j].1 < MAX_VCPUS && 32 <= drained[j].0 <= 63 ==> drained[j].0 - 32 in state.spis[drained[j].1]
      {
        state.InjectSpi(drained[k].0, drained[k].1);
      }
    }

    /** One trap of the running vCPU: each kind with its exact effect on the words. */
    method HandleTrap(c: nat, trap: Trap)
      requires Valid() && c < MAX_VCPUS
      modifies state.sgis, state.spis, cpus[c].lrs
      ensures match trap
              case SgiWrite(value, _) =>
                && state.spis[..] == old(state.spis[..])
                && forall id: nat :: id < MAX_VCPUS ==> state.sgis[id] == old(state.sgis[id]) + if QueuedFor(value, state.online[..], c, id) then {SgiIntid(value)} else {}
              case Spi(intid, target) =>
                && state.sgis[..] == old(state.sgis[..])
                && state.spis[..] == if 32 <= intid <= 63 && target < MAX_VCPUS then old(state.spis[..])[target := old(state.spis[target]) + {intid - 32}] else old(state.spis[..])
              case Flush(_) => state.sgis[..] == old(state.sgis[..]) && OnlyAt(old(state.spis[..]), state.spis[..], c)
              case Registers(lrs) =>
                && state.sgis[..] == old(state.sgis[..]) && state.spis[..] == old(state.spis[..])
                && (|lrs| == NUM_LRS ==> cpus[c].lrs[..] == lrs)
    {
      hide Delivery, FreeSet, Taken, SgiIntid, ToAll, Bit;
      match trap {
        case SgiWrite(value, numLrs) => state.HandleSgiTrap(value, c, cpus[c], numLrs);
        case Spi(intid, target) => state.InjectSpi(intid, target);
        case Flush(numLrs) => ghost var _ := cpus[c].FlushPendingSpis(state, numLrs, Quiet(32));
        case Registers(lrs) =>
          for i := 0 to NUM_LRS
            invariant state.sgis[..] == old(state.sgis[..]) && state.spis[..] == old(state.spis[..])
            invariant forall j :: 0 <= j < i && j < |lrs| ==> cpus[c].lrs[j] == lrs[j]
          {
            if i < |lrs| { cpus[c].lrs[i] := lrs[i]; }
          }
      }
    }

    /** The dispatched vCPU: its words are injected, and it runs until it exits. */
    method RunVcpu(c: nat, stimulus: Stimulus) returns (ghost entry: Entry)
      requires Valid() && c < MAX_VCPUS
      modifies state.sgis, state.spis, cpus[c].lrs
      ensures GrowBut(old(state.sgis[..]), state.sgis[..], c) && GrowBut(old(state.spis[..]), state.spis[..], c)
      ensures Entered(old(state.sgis[c]), entry.sgis, entry.lrs, 16, 0) && Entered(old(state.spis[c]), entry.spis, entry.lrs, 32, 32)
      ensures AllArrived(stimulus, c, state.online[..], state.sgis[..], state.spis[..])
    {
      hide Entered, Arrived, SgiIntid, QueuedFor;
      Drain(stimulus.drained);
      ghost var spis := state.spis[c];
      cpus[c].InjectPending(state);
      entry := Entry(state.sgis[c], state.spis[c], cpus[c].lrs[..]);
      EnteredSubset(old(state.spis[c]), spis, entry.spis, entry.lrs, 32, 32);
      forall d <- stimulus.drained ensures Arrived(Spi(d.0, d.1), c, state.online[..], state.sgis[..], state.spis[..]) {
        DrainedArrived(d, c, state.online[..], state.sgis[..], state.spis[..]);
      }
      var traps := stimulus.traps;
      for k := 0 to |traps|
        invariant GrowBut(old(state.sgis[..]), state.sgis[..], c) && GrowBut(old(state.spis[..]), state.spis[..], c)
        invariant forall j :: 0 <= j < k ==> Arrived(traps[j], c, state.online[..], state.sgis[..], state.spis[..])
        invariant forall d <- stimulus.drained :: Arrived(Spi(d.0, d.1), c, state.online[..], state.sgis[..], state.spis[..])
      {
        ghost var sgis1, spis1 := state.sgis[..], state.spis[..];
        HandleTrap(c, traps[k]);
        JustArrived(traps[k], c, state.online[..], sgis1, spis1, state.sgis[..], state.spis[..]);
        forall t: Trap | Arrived(t, c, state.online[..], sgis1, spis1) ensures Arrived(t, c, state.online[..], state.sgis[..], state.spis[..]) {
          ArrivedStays(t, c, state.online[..], sgis1, spis1, state.sgis[..], state.spis[..]);
        }
      }
    }

    /** `run_one_iteration`: done when nothing is ready and no vCPU is online.  Only the vCPU that ran
        may lose pending bits, to its registers. */
    method RunOneIteration(stimulus: Stimulus) returns (done: bool, ran: Option<nat>, ghost turn: Turn)
      requires Valid() && Inv(Abs()) && Abs().current == None
      modifies scheduler, scheduler.states, present, state.online, state.sgis, state.spis, set c <- cpus :: c.lrs
      ensures TurnOk(turn) && turn.start == old(State()) && turn.end == State() && turn.ran == ran
      ensures turn.cpuOn == stimulus.cpuOn && turn.exit == stimulus.exit
      ensures ran.Some? ==> AllArrived(stimulus, ran.value, state.online[..], state.sgis[..], state.spis[..])
      ensures Valid() && Inv(Abs()) && Abs().current == None
      ensures done <==> ran == None && forall i :: 0 <= i < MAX_VCPUS ==> !(state.online[i] && present[i])
    {
      hide Boot, Unblock, Inv, Distance, Entered, Flags, Iteration, AllArrived, Returned, IsNext;
      ghost var start := State();
      ghost var e := Env(stimulus.cpuOn, Flags(start.sgis, start.spis), stimulus.exit);
      ghost var mid;
      done, ran, mid := Schedule(stimulus.cpuOn);
      ghost var entry := Entry({}, {}, []);
      if ran.Some? {
        entry := RunVcpu(ran.value, stimulus);
        Leave(ran.value, stimulus.exit);
      }
      IsIteration(start.cpus, e, mid, Abs(), ran);
      turn := Turn(start, stimulus.cpuOn, stimulus.exit, mid, State(), ran, entry);
      IterationKeeps(start.cpus, e, mid, Abs(), ran);
    }

    /** What becomes of the vCPU that comes back from the guest. */
    method Leave(c: nat, exit: Exit)
      requires Valid() && scheduler.current == Some(c)
      modifies scheduler, scheduler.states
      ensures Valid() && Abs() == Returned(old(Abs()), exit)
    {
      match exit {
        case PowerOff => scheduler.RemoveVcpu(c);
        case Wfi => scheduler.BlockCurrent();
        case Other => scheduler.YieldCurrent();
      }
    }

    /** Boots, wakes and picks; if nothing is ready, every online vCPU is woken. */
    method Schedule(cpuOn: Option<nat>) returns (done: bool, ran: Option<nat>, ghost mid: Cpus)
      requires Valid() && Inv(Abs()) && Abs().current == None
      modifies scheduler, scheduler.states, present, state.online
      ensures Valid() && state.sgis[..] == old(state.sgis[..]) && state.spis[..] == old(state.spis[..])
      ensures var p := Prepared(old(Abs()), Env(cpuOn, Flags(old(state.sgis[..]), old(state.spis[..])), Other));
              match ran
              case Some(c) => IsNext(p.states, p.nextIdx, c) && mid == Abs() == Dispatched(p, c)
              case None => (forall i: nat :: i < MAX_VCPUS ==> p.states[i] != Ready) && mid == p && Abs() == Unblock(p, p.online)
      ensures done <==> ran == None && forall i :: 0 <= i < MAX_VCPUS ==> !(state.online[i] && present[i])
    {
      hide Boot, Unblock, Inv, Distance, Flags;
      ghost var e := Env(cpuOn, Flags(state.sgis[..], state.spis[..]), Other);
      BootSecondary(cpuOn);
      var _ := UnblockAll(Flags(state.sgis[..], state.spis[..]));
      PreparedKeeps(old(Abs()), e);
      assert scheduler.current == None;
      ran := scheduler.PickNext();
      mid := Abs();
      done := false;
      if ran == None {
        var any := UnblockAll(state.online[..]);
        done := !any;
      }
    }

    /** The loop of `run_smp`, for as many iterations as there are stimuli: every run of it is a run of
        turns. */
    method RunSmp(stimuli: seq<Stimulus>) returns (ghost turns: seq<Turn>)
      requires Valid() && Inv(Abs()) && Abs().current == None
      modifies scheduler, scheduler.states, present, state.online, state.sgis, state.spis, set c <- cpus :: c.lrs
      ensures IsVmRun(turns) && |turns| <= |stimuli| && forall k :: 0 <= k < |turns| ==> turns[k].cpuOn == stimuli[k].cpuOn && turns[k].exit == stimuli[k].exit
      ensures turns != [] ==> turns[0].start == old(State()).(cpus := old(Abs()).(online := old(Abs()).online[0 := true])) && turns[|turns| - 1].end == State()
      ensures turns != [] ==> Inv(turns[0].start.cpus) && turns[0].start.cpus.current == None
      ensures |turns| < |stimuli| ==> forall i :: 0 <= i < MAX_VCPUS ==> !(state.online[i] && present[i])
    {
      hide Inv, TurnOk;
      OnlineKeeps(Abs());
      state.online[0] := true;
      ghost var first := State();
      turns := [];
      for k := 0 to |stimuli|
        invariant Valid() && Inv(Abs()) && Abs().current == None && IsVmRun(turns) && |turns| == k
        invariant forall j :: 0 <= j < k ==> turns[j].cpuOn == stimuli[j].cpuOn && turns[j].exit == stimuli[j].exit
        invariant if k == 0 then State() == first else turns[0].start == first && turns[k - 1].end == State()
      {
        var done, _, turn := RunOneIteration(stimuli[k]);
        OneMore(turns, turn);
        turns := turns + [turn];
        if done { return; }
      }
    }
  }

  lemma DrainedArrived(d: (nat, nat), c: nat, online: seq<bool>, sgis: seq<set<nat>>, spis: seq<set<nat>>)
    requires |online| == MAX_VCPUS && |sgis| == MAX_VCPUS && |spis| == MAX_VCPUS
    requires d.1 < MAX_VCPUS && 32 <= d.0 <= 63 && d.1 != c ==> d.0 - 32 in spis[d.1]
    ensures Arrived(Spi(d.0, d.1), c, online, sgis, spis)
  {
  }

  /** The effect of one trap: what it raised is there, and no other vCPU loses a bit. */
  lemma JustArrived(trap: Trap, c: nat, online: seq<bool>, sgis: seq<set<nat>>, spis: seq<set<nat>>, sgis': seq<set<nat>>, spis': seq<set<nat>>)
    requires |online| == MAX_VCPUS && |sgis| == |sgis'| == MAX_VCPUS && |spis| == |spis'| == MAX_VCPUS
    requires match trap
             case SgiWrite(value, _) => spis' == spis && forall id: nat :: id < MAX_VCPUS ==> sgis'[id] == sgis[id] + if QueuedFor(value, online, c, id) then {SgiIntid(value)} else {}
             case Spi(intid, target) => sgis' == sgis && spis' == if 32 <= intid <= 63 && target < MAX_VCPUS then spis[target := spis[target] + {intid - 32}] else spis
             case Flush(_) => sgis' == sgis && OnlyAt(spis, spis', c)
             case Registers(_) => sgis' == sgis && spis' == spis
    ensures Arrived(trap, c, online, sgis', spis') && GrowBut(sgis, sgis', c) && GrowBut(spis, spis', c)
  {
    hide SgiIntid, QueuedFor;
  }

  lemma EnteredSubset(word: set<nat>, larger: set<nat>, word': set<nat>, lrs: seq<Lr>, width: nat, base: nat)
    requires word <= larger && Entered(larger, word', lrs, width, base)
    ensures Entered(word, word', lrs, width, base)
  {
  }

  lemma OnlineKeeps(s: Cpus)
    requires Inv(s)
    ensures Inv(s.(online := s.online[0 := true]))
  {
  }

  lemma OneMore(turns: seq<Turn>, turn: Turn)
    requires IsVmRun(turns) && TurnOk(turn) && (turns != [] ==> turns[|turns| - 1].end == turn.start)
    ensures IsVmRun(turns + [turn])
  {
    hide TurnOk;
  }

  lemma IsIteration(s: Cpus, e: Env, mid: Cpus, s': Cpus, ran: Option<nat>)
    requires WellFormed(s) && EnvOk(e)
    requires var p := Prepared(s, e.(exit := Other));
             match ran
             case Some(c) => IsNext(p.states, p.nextIdx, c) && mid == Dispatched(p, c) && s' == Returned(mid, e.exit)
             case None => (forall i: nat :: i < MAX_VCPUS ==> p.states[i] != Ready) && mid == p && s' == Unblock(p, p.online)
    ensures Iteration(s, e, mid, s', ran)
  {
    hide Boot, Unblock;
  }
}
