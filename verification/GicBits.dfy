/** Interrupt controller registers as 64-bit words: the List Registers that the hypervisor writes and
reads (src/arch/aarch64/peripherals/gicv3.rs:494-518), and ICC_SGI1R_EL1 as a guest writes it
(src/arch/aarch64/hypervisor/exception.rs:826-868). */
module GicBits {
  import opened BitWord
  import opened Interrupts
  import opened Modular
  import opened PteBits
  import opened Scheduling

  function Shr(a: Word, k: nat): Word { seq(64, i requires 0 <= i < 64 => i + k < 64 && a[i + k]) }

  // ---- List Registers ----

  /** The fields of ICH_LR<n>_EL2 in section 12.4.6 of Arm IHI 0069. */
  function LrFields(w: Word): Lr
  {
    Powers();
    Lr(Field(w, 62, 64), w[61], w[60], Field(w, 48, 56), Field(w, 32, 42), Field(w, 0, 32))
  }

  /** `build_lr`. */
  function LrWord(intid: nat, priority: nat): Word
  {
    Or(Or(Or(Shl(ToBits(1, 64), 62), Mask(60, 61)), Shl(ToBits(priority, 64), 48)), ToBits(intid, 64))
  }

  /** `get_lr_state`, `get_lr_intid` and `get_lr_priority`. */
  function GetState(w: Word): nat { Val(And(Shr(w, 62), Mask(0, 2))) }

  function GetIntid(w: Word): nat { Val(And(w, Mask(0, 32))) }

  function GetPriority(w: Word): nat { Val(And(Shr(w, 48), Mask(0, 8))) }

  /** The low bits that are masked. */
  lemma MaskedVal(w: Word, n: nat, b: Bits)
    requires n <= 64 && |b| == n && forall i :: 0 <= i < 64 ==> w[i] == (i < n && b[i])
    ensures Val(w) == Val(b)
  {
    hide Val, Pow2;
    ValSplit(w, n);
    NoBits(w[n..]);
    assert w[..n] == b;
  }

  /** The getters read the fields. */
  lemma GettersRead(w: Word)
    ensures GetState(w) == LrFields(w).state && GetIntid(w) == LrFields(w).intid && GetPriority(w) == LrFields(w).priority
  {
    hide Val, Pow2;
    MaskedVal(And(Shr(w, 62), Mask(0, 2)), 2, w[62..64]);
    MaskedVal(And(w, Mask(0, 32)), 32, w[0..32]);
    MaskedVal(And(Shr(w, 48), Mask(0, 8)), 8, w[48..56]);
  }

  lemma {:induction false} SmallBits(x: nat, n: nat, k: nat)
    requires k <= n && x < Pow2(k)
    ensures forall i :: k <= i < n ==> !ToBits(x, n)[i]
  {
    if k == 0 {
      ZeroBits(n);
    } else {
      SmallBits(x / 2, n - 1, k - 1);
    }
  }

  lemma LrBits(intid: nat, priority: nat)
    requires intid < 0x1_0000_0000 && priority < 256
    ensures forall i :: 0 <= i < 64 ==>
              LrWord(intid, priority)[i] == (if i < 32 then ToBits(intid, 64)[i] else if 48 <= i < 56 then ToBits(priority, 64)[i - 48] else i == 60 || i == 62)
  {
    hide Pow2, ToBits;
    MorePowers();
    SmallBits(intid, 64, 32);
    SmallBits(priority, 64, 8);
    SmallBits(1, 64, 1);
    OneBit();
  }

  lemma OneBit()
    ensures ToBits(1, 64)[0]
  {
  }

  lemma MorePowers()
    ensures Pow2(1) == 2 && Pow2(8) == 256 && Pow2(10) == 1024 && Pow2(32) == 0x1_0000_0000
  {
    assert Pow2(16) == 256 * Pow2(8);
    assert Pow2(24) == 256 * Pow2(16);
    assert Pow2(32) == 256 * Pow2(24);
  }

  /** State, priority and INTID of a word that was built are read back, and the word makes exactly that
      interrupt pending. */
  lemma ReadsBack(intid: nat, priority: nat)
    requires intid < 0x1_0000_0000 && priority < 256
    ensures var w := LrWord(intid, priority);
            && GetState(w) == 1 && GetIntid(w) == intid && GetPriority(w) == priority
            && LrFields(w) == Lr(1, false, true, priority, 0, intid)
  {
    hide Pow2, LrWord, Field, ToBits, Val;
    var w := LrWord(intid, priority);
    LrBits(intid, priority);
    GettersRead(w);
    Powers();
    MorePowers();
    NumberField(w, 0, 32, intid);
    NoField(w, 32, 42);
    NumberField(w, 48, 56, priority);
    StateOne(w);
  }

  lemma StateOne(w: Word)
    requires w[62] && !w[63]
    ensures Field(w, 62, 64) == 1
  {
    ValTwo(true, false);
    assert w[62..64] == [true, false];
  }

  /** So the record that the delivery writes is the hypervisor's word. */
  lemma WrittenWord(intid: nat)
    requires intid < 0x1_0000_0000
    ensures LrFields(LrWord(intid, 0xA0)) == BuildLr(intid) && Pends(LrFields(LrWord(intid, 0xA0)), intid)
  {
    hide LrWord, LrFields;
    ReadsBack(intid, 0xA0);
  }

  // ---- ICC_SGI1R_EL1 ----

  /** A guest's SGI `intid` for the vCPUs `targets`, or for all others; `rest` are the affinity fields. */
  function SgiWord(intid: nat, targets: set<nat>, all: bool, rest: Word): Word
  {
    seq(64, i requires 0 <= i < 64 =>
      if i < 16 then i in targets else if 24 <= i < 28 then ToBits(intid, 64)[i - 24] else if i == 40 then all else rest[i])
  }

  lemma ShiftDown(w: Word, k: nat)
    requires k < 64
    ensures Val(w) / Pow2(k) == Val(w[k..]) && (Val(w[k..]) % 2 == 1 <==> w[k])
  {
    hide Pow2, Val;
    ValSplit(w, k);
    var p, q := Pow2(k), Val(w[k..]);
    assert p * q == q * p;
    IsDiv(Val(w), p, q, Val(w[..k]));
    LowestBit(w[k..]);
  }

  lemma LowestBit(b: Bits)
    requires b != []
    ensures Val(b) % 2 == 1 <==> b[0]
  {
    hide Pow2;
    Parity(Val(b), Val(b[1..]), b[0]);
  }

  lemma Parity(x: nat, half: nat, odd: bool)
    requires x == (if odd then 1 else 0) + 2 * half
    ensures x % 2 == 1 <==> odd
  {
  }

  lemma BitIs(w: Word, k: nat)
    requires k < 64
    ensures Bit(Val(w), k) == w[k]
  {
    hide Val, Pow2;
    ShiftDown(w, k);
  }

  lemma IntidIs(w: Word)
    ensures SgiIntid(Val(w)) == Field(w, 24, 28)
  {
    hide Val, Pow2;
    Powers();
    ShiftDown(w, 24);
    var b := w[24..];
    ValSplit(b, 4);
    assert b[..4] == w[24..28];
  }

  /** The trap handler finds the interrupt and the targets that the guest wrote. */
  lemma SgiReaches(intid: nat, targets: set<nat>, all: bool, rest: Word, online: seq<bool>, current: nat)
    requires intid < 16 && |online| == MAX_VCPUS
    ensures var value := Val(SgiWord(intid, targets, all, rest));
            && SgiIntid(value) == intid
            && (forall id: nat :: id < MAX_VCPUS ==> (QueuedFor(value, online, current, id) <==> id != current && if all then online[id] else id in targets))
            && (ToSelf(value, current) <==> !all && current < MAX_VCPUS && current in targets)
  {
    hide Val, Pow2, ToBits, Bit, SgiIntid, Field;
    var w := SgiWord(intid, targets, all, rest);
    Powers();
    IntidIs(w);
    NumberField(w, 24, 28, intid);
    BitIs(w, 40);
    forall id: nat | id < MAX_VCPUS ensures Bit(Val(w), id) <==> id in targets { BitIs(w, id); }
  }
}
