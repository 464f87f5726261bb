/** Pending interrupt words and List Registers: raising (src/arch/aarch64/hypervisor/exception.rs:826-868,
src/global.rs:411-433), injection before guest entry (src/vm.rs:886-954) and the flush into the
hardware registers (src/arch/aarch64/hypervisor/exception.rs:1370-1395).  A pending word is the set
of its bits. */
module Interrupts {
  import opened BitWord
  import opened Descriptor
  import opened Scheduling
  import opened Sizes

  const NUM_LRS := 4
  const LR_STATE_PENDING := 1
  const IRQ_DEFAULT_PRIORITY := 0xA0

  /** A List Register of section 12.4.6 of Arm IHI 0069; state 0 is free. */
  datatype Lr = Lr(state: U2, hw: bool, group1: bool, priority: nat, pintid: nat, intid: nat)

  predicate IsFree(lr: Lr) { lr.state == 0 }

  function BuildLr(intid: nat): Lr { Lr(LR_STATE_PENDING, false, true, IRQ_DEFAULT_PRIORITY, 0, intid) }

  /** The register makes the interrupt pending: state 1, a software interrupt of group 1, priority 0xA0. */
  predicate Pends(lr: Lr, intid: nat) { lr.intid == intid && lr.state == 1 && lr.priority == 0xA0 && lr.group1 && !lr.hw && lr.pintid == 0 }

  // ---- List Registers ----

  /** The free registers among the first `n`. */
  ghost function FreeSet(lrs: seq<Lr>, n: nat): set<nat>
    requires n <= |lrs|
  {
    set i: nat | i < n && IsFree(lrs[i])
  }

  /** The registers that both the code and the hardware have. */
  function Usable(numLrs: nat): nat { Min(numLrs, NUM_LRS) }

  /** What each register received. */
  type Placement = seq<Option<nat>>

  ghost function Taken(got: Placement): set<nat> { set i | 0 <= i < |got| && got[i].Some? :: got[i].value }

  /** Register `i` was free and holds interrupt `got[i]`, or is as before. */
  ghost predicate Placed(lrs: seq<Lr>, lrs': seq<Lr>, got: Placement, base: nat, n: nat)
    requires n <= |lrs|
  {
    && |lrs'| == |lrs| == |got|
    && (forall i :: 0 <= i < |lrs| ==>
          match got[i]
          case None => lrs'[i] == lrs[i]
          case Some(b) => i < n && IsFree(lrs[i]) && Pends(lrs'[i], base + b))
    && |FreeSet(lrs', n)| + |Taken(got)| == |FreeSet(lrs, n)|
  }

  function Nothing(): Placement { [None, None, None, None] }

  lemma NonePlaced(lrs: seq<Lr>, base: nat, n: nat)
    requires n <= |lrs| == NUM_LRS
    ensures Placed(lrs, lrs, Nothing(), base, n) && Taken(Nothing()) == {}
  {
    assert Taken(Nothing()) == {};
  }

  lemma PlacedOne(lrs: seq<Lr>, mid: seq<Lr>, got: Placement, base: nat, n: nat, i: nat, b: nat, lr: Lr)
    requires n <= |lrs| && Placed(lrs, mid, got, base, n) && i < n && IsFree(mid[i]) && b !in Taken(got) && Pends(lr, base + b)
    ensures Placed(lrs, mid[i := lr], got[i := Some(b)], base, n)
    ensures |got| == |lrs| && Taken(got[i := Some(b)]) == Taken(got) + {b}
  {
    hide FreeSet, Taken;
    FreeMinus(mid, i, lr, n);
    BitsPlus(got, i, b);
  }

  lemma BitsPlus(got: Placement, i: nat, b: nat)
    requires i < |got| && got[i] == None
    ensures Taken(got[i := Some(b)]) == Taken(got) + {b}
  {
    var got' := got[i := Some(b)];
    forall x <- Taken(got) ensures x in Taken(got') {
      var k :| 0 <= k < |got| && got[k] == Some(x);
      assert got'[k] == Some(x);
    }
    assert got'[i] == Some(b);
  }

  lemma FreeMinus(lrs: seq<Lr>, i: nat, lr: Lr, n: nat)
    requires i < n <= |lrs| && IsFree(lrs[i]) && !IsFree(lr)
    ensures |FreeSet(lrs[i := lr], n)| == |FreeSet(lrs, n)| - 1
  {
    assert FreeSet(lrs[i := lr], n) == FreeSet(lrs, n) - {i};
  }

  // ---- delivery ----

  ghost function Below(word: set<nat>, width: nat): set<nat> { set b <- word | b < width }

  ghost function AllOf(sets: seq<set<nat>>): set<nat>
  {
    if sets == [] then {} else AllOf(sets[..|sets| - 1]) + sets[|sets| - 1]
  }

  /** The delivery of the bits `taken`: as many as registers are free, lower interrupts first. */
  ghost predicate Delivery(taken: set<nat>, lrs: seq<Lr>, lrs': seq<Lr>, got: Placement, base: nat, n: nat)
    requires n <= |lrs|
  {
    && Placed(lrs, lrs', got, base, n) && Taken(got) <= taken
    && (forall p, q :: p in Taken(got) && q in taken && q !in Taken(got) ==> p < q)
    && |Taken(got)| == Min(|taken|, |FreeSet(lrs, n)|)
  }

  /** The delivery of the bits of `all` up to `bit`. */
  ghost predicate Progress(all: set<nat>, bit: nat, lrs: seq<Lr>, lrs': seq<Lr>, got: Placement, base: nat, n: nat)
    requires n <= |lrs|
  {
    && Placed(lrs, lrs', got, base, n) && Taken(got) <= Below(all, bit)
    && (forall p, q :: p in Taken(got) && q in Below(all, bit) && q !in Taken(got) ==> p < q)
    && (Below(all, bit) != Taken(got) ==> FreeSet(lrs', n) == {})
  }

  /** What has been put back of the bits of `all` up to `bit`. */
  ghost function Left(all: set<nat>, bit: nat, got: Placement, numLrs: nat): set<nat>
  {
    Requeued(Below(all, bit), got, numLrs)
  }

  lemma ProgressStart(all: set<nat>, lrs: seq<Lr>, base: nat, n: nat, numLrs: nat)
    requires n <= |lrs| == NUM_LRS
    ensures Progress(all, 0, lrs, lrs, Nothing(), base, n) && Left(all, 0, Nothing(), numLrs) == {}
  {
    NonePlaced(lrs, base, n);
  }

  /** A bit that is clear, or set without a free register. */
  lemma ProgressPast(all: set<nat>, bit: nat, lrs: seq<Lr>, mid: seq<Lr>, got: Placement, base: nat, n: nat, numLrs: nat)
    requires n <= |lrs| && Progress(all, bit, lrs, mid, got, base, n) && n <= |mid|
    requires bit in all ==> FreeSet(mid, n) == {}
    ensures Progress(all, bit + 1, lrs, mid, got, base, n)
    ensures Left(all, bit + 1, got, numLrs) == Left(all, bit, got, numLrs) + if bit in all && numLrs <= NUM_LRS then {bit} else {}
  {
    hide Placed, FreeSet;
    BelowStep(all, bit);
    assert forall p <- Taken(got) :: p in Below(all, bit) && p < bit;
  }

  lemma ProgressPlaced(all: set<nat>, bit: nat, lrs: seq<Lr>, mid: seq<Lr>, got: Placement, base: nat, n: nat, numLrs: nat, i: nat, lr: Lr)
    requires n <= |lrs| && Progress(all, bit, lrs, mid, got, base, n) && i < n && n <= |mid| && IsFree(mid[i]) && bit in all && Pends(lr, base + bit)
    ensures |got| == |lrs| && Progress(all, bit + 1, lrs, mid[i := lr], got[i := Some(bit)], base, n)
    ensures Left(all, bit + 1, got[i := Some(bit)], numLrs) == Left(all, bit, got, numLrs)
  {
    hide Placed;
    assert i in FreeSet(mid, n);
    BelowStep(all, bit);
    PlacedOne(lrs, mid, got, base, n, i, bit, lr);
  }

  class VirtualCpu {
    const id: nat
    /** The saved List Registers. */
    const lrs: array<Lr>

    predicate Valid() { lrs.Length == NUM_LRS && id < MAX_VCPUS }

    constructor (id: nat, lr: Lr)
      requires id < MAX_VCPUS
      ensures Valid() && this.id == id && fresh(lrs) && forall x <- lrs[..] :: x == lr
    {
      this.id := id;
      lrs := new Lr[NUM_LRS](_ => lr);
    }

    /** `inject_interrupt` with the number of registers that ICH_VTR_EL2 reports: a free one is taken.
        A register beyond the fourth reads as free and ignores writes. */
    method InjectInterrupt(numLrs: nat, intid: nat) returns (ok: bool, ghost slot: Option<nat>)
      requires Valid()
      modifies lrs
      ensures ok <==> slot.Some? || numLrs > NUM_LRS
      ensures match slot
              case Some(i) => i < Usable(numLrs) && IsFree(old(lrs[i])) && Pends(lrs[i], intid) && lrs[..] == old(lrs[..])[i := lrs[i]]
              case None => FreeSet(old(lrs[..]), Usable(numLrs)) == {} && lrs[..] == old(lrs[..])
    {
      for i := 0 to numLrs
        invariant lrs[..] == old(lrs[..])
        invariant i <= NUM_LRS && forall k :: 0 <= k < i ==> !IsFree(lrs[k])
      {
        if i >= NUM_LRS { return true, None; }
        if IsFree(lrs[i]) {
          lrs[i] := BuildLr(intid);
          return true, Some(i);
        }
      }
      return false, None;
    }

    /** Takes this vCPU's word among `words` and delivers its bits below `width`, in order.  `arrivals`
        are the bits that other pCPUs raise before each access to the word, and after the last. */
    method Deliver(words: array<set<nat>>, width: nat, base: nat, numLrs: nat, arrivals: seq<set<nat>>) returns (ghost got: Placement)
      requires Valid() && words.Length == MAX_VCPUS && |arrivals| == width + 2
      modifies words, lrs
      ensures var taken := Below(old(words[id]) + arrivals[0], width);
              && Delivery(taken, old(lrs[..]), lrs[..], got, base, Usable(numLrs))
              && words[id] == AllOf(arrivals[1..]) + Requeued(taken, got, numLrs) && OnlyAt(old(words[..]), words[..], id)
    {
      hide AllOf, Below, Placed, FreeSet, Progress, Left;
      words[id] := words[id] + arrivals[0];
      var all := words[id];
      words[id] := {};
      ghost var n := Usable(numLrs);
      got := Nothing();
      ProgressStart(all, lrs[..], base, n, numLrs);
      AllOfNone(arrivals[1..]);
      for bit := 0 to width
        invariant Progress(all, bit, old(lrs[..]), lrs[..], got, base, n)
        invariant words[id] == AllOf(arrivals[1..][..bit]) + Left(all, bit, got, numLrs) && OnlyAt(old(words[..]), words[..], id)
      {
        words[id] := words[id] + arrivals[1 + bit];
        AllOfStep(arrivals[1..], bit);
        if bit in all {
          ghost var mid := lrs[..];
          var ok, slot := InjectInterrupt(numLrs, base + bit);
          if slot.Some? {
            ProgressPlaced(all, bit, old(lrs[..]), mid, got, base, n, numLrs, slot.value, lrs[slot.value]);
            got := got[slot.value := Some(bit)];
          } else {
            ProgressPast(all, bit, old(lrs[..]), mid, got, base, n, numLrs);
          }
          if !ok { words[id] := words[id] + {bit}; }
        } else {
          ProgressPast(all, bit, old(lrs[..]), lrs[..], got, base, n, numLrs);
        }
      }
      words[id] := words[id] + arrivals[1 + width];
      AllOfStep(arrivals[1..], width);
      assert arrivals[1..][..width + 1] == arrivals[1..];
      ProgressDone(all, width, old(lrs[..]), lrs[..], got, base, n, numLrs);
    }

    /** `inject_pending_sgis`: into the four saved registers. */
    method InjectPendingSgis(vs: VmGlobalState, arrivals: seq<set<nat>>) returns (ghost got: Placement)
      requires Valid() && vs.Valid() && |arrivals| == 18
      modifies vs.sgis, lrs
      ensures var taken := Below(old(vs.sgis[id]) + arrivals[0], 16);
              && Delivery(taken, old(lrs[..]), lrs[..], got, 0, NUM_LRS)
              && vs.sgis[id] == AllOf(arrivals[1..]) + (taken - Taken(got)) && OnlyAt(old(vs.sgis[..]), vs.sgis[..], id)
    {
      got := Deliver(vs.sgis, 16, 0, NUM_LRS, arrivals);
    }

    /** `inject_pending_spis`. */
    method InjectPendingSpis(vs: VmGlobalState, arrivals: seq<set<nat>>) returns (ghost got: Placement)
      requires Valid() && vs.Valid() && |arrivals| == 34
      modifies vs.spis, lrs
      ensures var taken := Below(old(vs.spis[id]) + arrivals[0], 32);
              && Delivery(taken, old(lrs[..]), lrs[..], got, 32, NUM_LRS)
              && vs.spis[id] == AllOf(arrivals[1..]) + (taken - Taken(got)) && OnlyAt(old(vs.spis[..]), vs.spis[..], id)
    {
      got := Deliver(vs.spis, 32, 32, NUM_LRS, arrivals);
    }

    /** `flush_pending_spis_to_hardware`: what is taken is delivered or requeued exactly when at most
        four registers are reported or all bits found a free one. */
    method FlushPendingSpis(vs: VmGlobalState, numLrs: nat, arrivals: seq<set<nat>>) returns (ghost got: Placement)
      requires Valid() && vs.Valid() && |arrivals| == 34
      modifies vs.spis, lrs
      ensures var taken := Below(old(vs.spis[id]) + arrivals[0], 32);
              && Delivery(taken, old(lrs[..]), lrs[..], got, 32, Usable(numLrs))
              && vs.spis[id] == AllOf(arrivals[1..]) + Requeued(taken, got, numLrs) && OnlyAt(old(vs.spis[..]), vs.spis[..], id)
              && (Taken(got) + Requeued(taken, got, numLrs) == taken <==> numLrs <= NUM_LRS || |taken| <= |FreeSet(old(lrs[..]), Usable(numLrs))|)
    {
      hide Placed;
      got := Deliver(vs.spis, 32, 32, numLrs, arrivals);
      SubsetSize(Taken(got), Below(old(vs.spis[id]) + arrivals[0], 32));
    }

    /** Both words before guest entry. */
    method InjectPending(vs: VmGlobalState)
      requires Valid() && vs.Valid()
      modifies vs.sgis, vs.spis, lrs
      ensures OnlyAt(old(vs.sgis[..]), vs.sgis[..], id) && OnlyAt(old(vs.spis[..]), vs.spis[..], id)
      ensures Entered(old(vs.sgis[id]), vs.sgis[id], lrs[..], 16, 0) && Entered(old(vs.spis[id]), vs.spis[id], lrs[..], 32, 32)
    {
      hide Below, Taken, Delivery, Entered, AllOf;
      ghost var lrs0, sgis, spis := lrs[..], vs.sgis[id], vs.spis[id];
      QuietWords(sgis, 16);
      QuietWords(spis, 32);
      ghost var got := InjectPendingSgis(vs, Quiet(16));
      DeliveryEnters(sgis, vs.sgis[id], lrs0, lrs[..], got, 16, 0);
      ghost var lrs1 := lrs[..];
      ghost var got' := InjectPendingSpis(vs, Quiet(32));
      DeliveryEnters(spis, vs.spis[id], lrs1, lrs[..], got', 32, 32);
      EnteredStays(sgis, vs.sgis[id], Below(spis, 32), lrs1, lrs[..], got', 16, 0, 32);
    }
  }

  /** At most one word changed. */
  ghost predicate OnlyAt(words: seq<set<nat>>, words': seq<set<nat>>, id: nat)
  {
    |words'| == |words| && forall k :: 0 <= k < |words| && k != id ==> words'[k] == words[k]
  }

  /** The bits that found no register and go back to the word, unless they were thought delivered. */
  ghost function Requeued(taken: set<nat>, got: Placement, numLrs: nat): set<nat>
  {
    if numLrs <= NUM_LRS then taken - Taken(got) else {}
  }

  // ---- guest entry ----

  /** No arrivals. */
  function Quiet(width: nat): seq<set<nat>> { seq(width + 2, _ => {}) }

  predicate Holds(lrs: seq<Lr>, intid: nat) { exists i :: 0 <= i < |lrs| && Pends(lrs[i], intid) }

  /** Every interrupt of the word is in a register or still pending, and the latter only if no
      register is free. */
  ghost predicate Entered(word: set<nat>, word': set<nat>, lrs: seq<Lr>, width: nat, base: nat)
  {
    && (forall b <- word :: b < width ==> b in word' || Holds(lrs, base + b))
    && (word' != {} ==> forall i :: 0 <= i < |lrs| ==> !IsFree(lrs[i]))
  }

  lemma QuietWords(word: set<nat>, width: nat)
    ensures word + Quiet(width)[0] == word && AllOf(Quiet(width)[1..]) == {} && forall w: set<nat> :: {} + w == w
  {
    AllEmpty(Quiet(width)[1..]);
  }

  lemma DeliveryEnters(word: set<nat>, word': set<nat>, lrs: seq<Lr>, lrs': seq<Lr>, got: Placement, width: nat, base: nat)
    requires |lrs| == NUM_LRS && Delivery(Below(word, width), lrs, lrs', got, base, NUM_LRS) && word' == Below(word, width) - Taken(got)
    ensures Entered(word, word', lrs', width, base)
  {
    hide FreeSet, Taken, Placed;
    forall b <- word | b < width && b !in word' ensures Holds(lrs', base + b) { TakenHolds(lrs, lrs', got, base, NUM_LRS, b); }
    if word' != {} {
      PlacedFree(lrs, lrs', got, base, NUM_LRS);
      SubsetSize(Taken(got), Below(word, width));
      NoneFree(lrs');
    }
  }

  lemma TakenHolds(lrs: seq<Lr>, lrs': seq<Lr>, got: Placement, base: nat, n: nat, b: nat)
    requires n <= |lrs| && Placed(lrs, lrs', got, base, n) && b in Taken(got)
    ensures Holds(lrs', base + b)
  {
    hide FreeSet;
    var i :| 0 <= i < |got| && got[i] == Some(b);
    assert Pends(lrs'[i], base + b);
  }

  lemma PlacedFree(lrs: seq<Lr>, lrs': seq<Lr>, got: Placement, base: nat, n: nat)
    requires n <= |lrs| && Placed(lrs, lrs', got, base, n)
    ensures |lrs'| == |lrs| && |FreeSet(lrs', n)| + |Taken(got)| == |FreeSet(lrs, n)|
  {
  }

  lemma NoneFree(lrs: seq<Lr>)
    requires |lrs| == NUM_LRS && |FreeSet(lrs, NUM_LRS)| == 0
    ensures forall i :: 0 <= i < |lrs| ==> !IsFree(lrs[i])
  {
    forall i | 0 <= i < |lrs| ensures !IsFree(lrs[i]) { assert i !in FreeSet(lrs, NUM_LRS); }
  }

  /** A later delivery takes free registers only. */
  lemma EnteredStays(word: set<nat>, word': set<nat>, taken: set<nat>, lrs: seq<Lr>, lrs': seq<Lr>, got: Placement, width: nat, base: nat, base': nat)
    requires |lrs| == NUM_LRS && Entered(word, word', lrs, width, base) && Delivery(taken, lrs, lrs', got, base', NUM_LRS)
    ensures Entered(word, word', lrs', width, base)
  {
    forall b <- word | b < width && b !in word' ensures Holds(lrs', base + b) {
      var i :| 0 <= i < |lrs| && Pends(lrs[i], base + b);
      assert lrs'[i] == lrs[i];
    }
  }

  lemma ProgressDone(all: set<nat>, width: nat, lrs: seq<Lr>, lrs': seq<Lr>, got: Placement, base: nat, n: nat, numLrs: nat)
    requires n <= |lrs| && Progress(all, width, lrs, lrs', got, base, n)
    ensures Delivery(Below(all, width), lrs, lrs', got, base, n)
    ensures Left(all, width, got, numLrs) == Requeued(Below(all, width), got, numLrs)
  {
    SubsetSize(Taken(got), Below(all, width));
  }

  lemma BelowStep(word: set<nat>, bit: nat)
    ensures Below(word, bit + 1) == if bit in word then Below(word, bit) + {bit} else Below(word, bit)
    ensures forall b <- Below(word, bit) :: b < bit
  {
  }

  lemma AllOfNone(sets: seq<set<nat>>)
    ensures AllOf(sets[..0]) == {}
  {
  }

  lemma AllOfStep(sets: seq<set<nat>>, i: nat)
    requires i < |sets|
    ensures AllOf(sets[..i + 1]) == AllOf(sets[..i]) + sets[i]
  {
    assert sets[..i + 1][..i] == sets[..i];
  }

  lemma {:induction false} AllEmpty(sets: seq<set<nat>>)
    requires forall i :: 0 <= i < |sets| ==> sets[i] == {}
    ensures AllOf(sets) == {}
  {
    if sets != [] { AllEmpty(sets[..|sets| - 1]); }
  }

  // ---- raising ----

  function Bit(value: nat, k: nat): bool { value / Pow2(k) % 2 == 1 }

  /** The fields of ICC_SGI1R_EL1. */
  function SgiIntid(value: nat): (r: nat)
    ensures r < 16
  {
    value / Pow2(24) % 16
  }

  predicate ToAll(value: nat) { Bit(value, 40) }

  /** Whether the SGI goes to the pending word of `id`. */
  predicate QueuedFor(value: nat, online: seq<bool>, current: nat, id: nat)
    requires id < |online|
  {
    id != current && if ToAll(value) then online[id] else Bit(value, id)
  }

  /** Whether the SGI goes to the List Registers of the vCPU that raises it. */
  predicate ToSelf(value: nat, current: nat) { !ToAll(value) && current < MAX_VCPUS && Bit(value, current) }

  /** What a VM keeps of its vCPUs for all pCPUs: pending words and the online mask. */
  class VmGlobalState {
    const sgis: array<set<nat>>
    const spis: array<set<nat>>
    const online: array<bool>

    predicate Valid() { sgis.Length == MAX_VCPUS && spis.Length == MAX_VCPUS && online.Length == MAX_VCPUS && sgis != spis }

    constructor ()
      ensures Valid() && fresh(sgis) && fresh(spis) && fresh(online)
      ensures (forall w <- sgis[..] + spis[..] :: w == {}) && forall x <- online[..] :: !x
    {
      sgis := new set<nat>[MAX_VCPUS](_ => {});
      spis := new set<nat>[MAX_VCPUS](_ => {});
      online := new bool[MAX_VCPUS](_ => false);
    }

    /** `inject_spi` with the vCPU that the distributor routes to. */
    method InjectSpi(intid: nat, target: nat)
      requires Valid()
      modifies spis
      ensures spis[..] == if 32 <= intid <= 63 && target < MAX_VCPUS then old(spis[..])[target := old(spis[target]) + {intid - 32}] else old(spis[..])
    {
      if intid < 32 || intid > 63 { return; }
      if target < MAX_VCPUS { spis[target] := spis[target] + {intid - 32}; }
    }

    /** `handle_sgi_trap`: every other target gets the bit.  An SGI to itself reaches a register
        exactly when one is free, and otherwise is dropped. */
    method HandleSgiTrap(value: nat, current: nat, cpu: VirtualCpu, numLrs: nat)
      requires Valid() && cpu.Valid()
      modifies sgis, cpu.lrs
      ensures forall id :: 0 <= id < MAX_VCPUS ==>
                sgis[id] == old(sgis[id]) + if QueuedFor(value, online[..], current, id) then {SgiIntid(value)} else {}
      ensures !ToSelf(value, current) || FreeSet(old(cpu.lrs[..]), Usable(numLrs)) == {} ==> cpu.lrs[..] == old(cpu.lrs[..])
      ensures ToSelf(value, current) && FreeSet(old(cpu.lrs[..]), Usable(numLrs)) != {} ==>
                exists i :: 0 <= i < Usable(numLrs) && IsFree(old(cpu.lrs[i])) && Pends(cpu.lrs[i], SgiIntid(value)) && cpu.lrs[..] == old(cpu.lrs[..])[i := cpu.lrs[i]]
    {
      hide FreeSet, Pow2;
      var intid := SgiIntid(value);
      if ToAll(value) {
        for id := 0 to MAX_VCPUS
          invariant cpu.lrs[..] == old(cpu.lrs[..])
          invariant forall k :: 0 <= k < MAX_VCPUS ==>
                      sgis[k] == old(sgis[k]) + if k < id && QueuedFor(value, online[..], current, k) then {intid} else {}
        {
          if id != current && online[id] { sgis[id] := sgis[id] + {intid}; }
        }
      } else {
        for id := 0 to MAX_VCPUS
          invariant forall k :: 0 <= k < MAX_VCPUS ==>
                      sgis[k] == old(sgis[k]) + if k < id && QueuedFor(value, online[..], current, k) then {intid} else {}
          invariant !(current < id && ToSelf(value, current)) || FreeSet(old(cpu.lrs[..]), Usable(numLrs)) == {} ==> cpu.lrs[..] == old(cpu.lrs[..])
          invariant current < id && ToSelf(value, current) && FreeSet(old(cpu.lrs[..]), Usable(numLrs)) != {} ==>
                      exists i :: 0 <= i < Usable(numLrs) && IsFree(old(cpu.lrs[i])) && Pends(cpu.lrs[i], intid) && cpu.lrs[..] == old(cpu.lrs[..])[i := cpu.lrs[i]]
        {
          if Bit(value, id) {
            if id == current {
              var _, slot := cpu.InjectInterrupt(numLrs, intid);
              if slot.Some? { FreeMember(old(cpu.lrs[..]), Usable(numLrs), slot.value); }
            } else {
              sgis[id] := sgis[id] + {intid};
            }
          }
        }
      }
    }
  }

  /** With five registers reported and all four in use, the flush takes a pending interrupt and
      delivers it nowhere. */
  method FlushLoses(bit: nat) returns (vs: VmGlobalState, cpu: VirtualCpu)
    requires bit < 32
    ensures vs.Valid() && cpu.Valid() && vs.spis[cpu.id] == {} && !Holds(cpu.lrs[..], 32 + bit)
  {
    vs := new VmGlobalState();
    cpu := new VirtualCpu(0, BuildLr(27));
    assert forall i :: 0 <= i < NUM_LRS ==> cpu.lrs[i] in cpu.lrs[..];
    vs.InjectSpi(32 + bit, 0);
    AllEmpty(Quiet(32)[1..]);
    assert FreeSet(cpu.lrs[..], NUM_LRS) == {};
    ghost var got := cpu.FlushPendingSpis(vs, 5, Quiet(32));
  }

  lemma FreeMember(lrs: seq<Lr>, n: nat, i: nat)
    requires n <= |lrs| && i < n && IsFree(lrs[i])
    ensures FreeSet(lrs, n) != {}
  {
    assert i in FreeSet(lrs, n);
  }

  // ---- one word over a whole run ----

  /** The pending word and the List Registers of a vCPU. */
  datatype CpuWord = CpuWord(pending: set<nat>, lrs: seq<Lr>)

  /** Another pCPU or a device raises a bit, the word is injected, or the guest changes registers. */
  datatype Event = Raise(bit: nat) | Inject(got: Placement) | Guest

  ghost predicate Next(s: CpuWord, e: Event, s': CpuWord, width: nat, base: nat)
  {
    && |s.lrs| == NUM_LRS && |s'.lrs| == NUM_LRS
    && match e
       case Raise(bit) => bit < width && s' == s.(pending := s.pending + {bit})
       case Inject(got) =>
         && Delivery(Below(s.pending, width), s.lrs, s'.lrs, got, base, NUM_LRS)
         && s'.pending == Below(s.pending, width) - Taken(got)
       case Guest => s'.pending == s.pending
  }

  ghost predicate IsRun(run: seq<CpuWord>, events: seq<Event>, width: nat, base: nat)
  {
    |run| == |events| + 1 && forall k :: 0 <= k < |events| ==> Next(run[k], events[k], run[k + 1], width, base)
  }

  ghost predicate DeliveredIn(events: seq<Event>, b: nat, k: nat, j: nat)
    requires j <= |events|
  {
    exists m :: k <= m < j && events[m].Inject? && b in Taken(events[m].got)
  }

  ghost predicate RaisedBefore(events: seq<Event>, b: nat, j: nat)
    requires j <= |events|
  {
    exists k: nat :: k < j && events[k] == Raise(b) && !DeliveredIn(events, b, k, j)
  }

  /** No interrupt is lost or invented: a bit is pending exactly when it was raised, or pending at
      the start, and has not been delivered since. */
  lemma {:induction false} PendingExactly(run: seq<CpuWord>, events: seq<Event>, width: nat, base: nat, j: nat, b: nat)
    requires IsRun(run, events, width, base) && j <= |events| && b < width
    ensures b in run[j].pending <==> RaisedBefore(events, b, j) || (b in run[0].pending && !DeliveredIn(events, b, 0, j))
  {
    if j > 0 {
      hide Delivery, Taken;
      PendingExactly(run, events, width, base, j - 1, b);
      assert Next(run[j - 1], events[j - 1], run[j], width, base);
      forall k: nat | k < j ensures DeliveredIn(events, b, k, j) <==>
          DeliveredIn(events, b, k, j - 1) || (events[j - 1].Inject? && b in Taken(events[j - 1].got)) {}
      if events[j - 1] == Raise(b) { assert !DeliveredIn(events, b, j - 1, j); }
    }
  }

  /** Only a bit that is pending is delivered. */
  lemma DeliveredWasPending(run: seq<CpuWord>, events: seq<Event>, width: nat, base: nat, j: nat, b: nat)
    requires IsRun(run, events, width, base) && j < |events| && events[j].Inject? && b in Taken(events[j].got)
    ensures b < width && b in run[j].pending && b !in run[j + 1].pending
    ensures exists i :: 0 <= i < NUM_LRS && IsFree(run[j].lrs[i]) && Pends(run[j + 1].lrs[i], base + b)
  {
    assert Next(run[j], events[j], run[j + 1], width, base);
    var got := events[j].got;
    var i :| 0 <= i < |got| && got[i] == Some(b);
  }
}
