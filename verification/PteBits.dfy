/** Descriptors as 64-bit words: every mask-and-shift expression of the hypervisor
(src/arch/aarch64/defs.rs:92-111) acts on a word as the functions of `Descriptor` act on its fields. */
module PteBits {
  import opened BitWord
  import opened Descriptor

  type Word = w: seq<bool> | |w| == 64 witness seq(64, _ => false)

  /** The bits `lo` to `hi - 1`. */
  function Mask(lo: nat, hi: nat): Word { seq(64, i requires 0 <= i < 64 => lo <= i < hi) }

  function Field(w: Word, lo: nat, hi: nat): (r: nat)
    requires lo <= hi <= 64
    ensures r < Pow2(hi - lo)
  {
    Val(w[lo..hi])
  }

  lemma Powers()
    ensures Pow2(2) == 4 && Pow2(4) == 16 && Pow2(7) == 128 && Pow2(9) == 512 && Pow2(12) == 4096 && Pow2(27) == 0x800_0000 && Pow2(36) == PAGES
  {
    assert Pow2(30) == 8 * Pow2(27);
    assert Pow2(33) == 8 * Pow2(30);
    assert Pow2(36) == 8 * Pow2(33);
  }

  /** The fields of a word. */
  function Fields(w: Word): Pte
  {
    Powers();
    Pte(w[0], w[1], Field(w, 2, 6), Field(w, 6, 8), Field(w, 8, 12), Field(w, 12, 21), Field(w, 21, 48), Field(w, 48, 55), Field(w, 55, 57), Field(w, 57, 64))
  }

  lemma SameField(a: Word, b: Word, lo: nat, hi: nat)
    requires lo <= hi <= 64 && forall i :: lo <= i < hi ==> a[i] == b[i]
    ensures Field(a, lo, hi) == Field(b, lo, hi)
  {
    hide Val;
    assert a[lo..hi] == b[lo..hi];
  }

  /** The field that holds the lowest bits of a number. */
  lemma NumberField(w: Word, lo: nat, hi: nat, x: nat)
    requires lo <= hi <= 64 && forall i :: lo <= i < hi ==> w[i] == ToBits(x, 64)[i - lo]
    ensures Field(w, lo, hi) == x % Pow2(hi - lo)
  {
    hide Val, ToBits, Pow2;
    Lowest(x, 64, hi - lo);
    assert w[lo..hi] == ToBits(x, 64)[..hi - lo];
    ValOfBits(x, hi - lo);
  }

  // ---- replacing a field ----

  /** `(w & !MASK) | ((x & m) << shift)`. */
  function SetField(w: Word, lo: nat, hi: nat, x: nat): Word
    requires lo <= hi <= 64
  {
    Or(And(w, Not(Mask(lo, hi))), Shl(And(ToBits(x, 64), Mask(0, hi - lo)), lo))
  }

  lemma SetFieldBits(w: Word, lo: nat, hi: nat, x: nat)
    requires lo <= hi <= 64
    ensures forall i :: 0 <= i < 64 ==> SetField(w, lo, hi, x)[i] == if lo <= i < hi then ToBits(x, 64)[i - lo] else w[i]
  {
    hide ToBits;
  }

  /** `write_sw_bits` on the word. */
  lemma SwWord(w: Word, bits: nat)
    ensures Fields(SetField(w, 55, 57, bits)) == WithSw(Fields(w), bits)
  {
    hide SetField, Field, Pow2;
    var r := SetField(w, 55, 57, bits);
    SetFieldBits(w, 55, 57, bits);
    Powers();
    NumberField(r, 55, 57, bits);
    SameField(r, w, 2, 6);
    SameField(r, w, 6, 8);
    SameField(r, w, 8, 12);
    SameField(r, w, 12, 21);
    SameField(r, w, 21, 48);
    SameField(r, w, 48, 55);
    SameField(r, w, 57, 64);
  }

  /** `set_s2ap` on the word. */
  lemma S2apWord(w: Word, bits: nat)
    ensures Fields(SetField(w, 6, 8, bits)) == WithS2ap(Fields(w), bits)
  {
    hide SetField, Field, Pow2;
    var r := SetField(w, 6, 8, bits);
    SetFieldBits(w, 6, 8, bits);
    Powers();
    NumberField(r, 6, 8, bits);
    SameField(r, w, 2, 6);
    SameField(r, w, 8, 12);
    SameField(r, w, 12, 21);
    SameField(r, w, 21, 48);
    SameField(r, w, 48, 55);
    SameField(r, w, 55, 57);
    SameField(r, w, 57, 64);
  }

  // ---- addresses ----

  /** An address below 2^48. */
  predicate Below48(a: Word) { forall i :: 48 <= i < 64 ==> !a[i] }

  /** The page number of an address. */
  function PageOfWord(a: Word): PageNo
  {
    Powers();
    Field(a, 12, 48)
  }

  /** Its lower nine bits and the rest. */
  lemma PageSplit(a: Word)
    ensures PageOfWord(a) % 512 == Field(a, 12, 21) && PageOfWord(a) / 512 == Field(a, 21, 48)
  {
    hide Val, Pow2;
    Powers();
    var b := a[12..48];
    ValSplit(b, 9);
    assert b[..9] == a[12..21] && b[9..] == a[21..48];
  }

  /** `entry & PTE_ADDR_MASK` is the page address. */
  lemma AddrOfWord(w: Word)
    ensures Val(And(w, Mask(12, 48))) == Fields(w).Page() * 4096
  {
    hide Val, Pow2;
    Powers();
    var a := And(w, Mask(12, 48));
    ValSplit(a, 12);
    ValSplit(a[12..], 36);
    NoBits(a[..12]);
    NoBits(a[12..][36..]);
    assert a[12..][..36] == w[12..48];
    PageSplit(w);
  }

  lemma NoField(w: Word, lo: nat, hi: nat)
    requires lo <= hi <= 64 && forall i :: lo <= i < hi ==> !w[i]
    ensures Field(w, lo, hi) == 0
  {
    hide Val;
    NoBits(w[lo..hi]);
  }

  lemma AllField(w: Word, lo: nat, hi: nat)
    requires lo <= hi <= 64 && forall i :: lo <= i < hi ==> w[i]
    ensures Field(w, lo, hi) == Pow2(hi - lo) - 1
  {
    hide Val;
    AllBits(w[lo..hi]);
  }

  lemma {:induction false} AllBits(b: Bits)
    requires forall i :: 0 <= i < |b| ==> b[i]
    ensures Val(b) == Pow2(|b|) - 1
  {
    if b != [] { AllBits(b[1..]); }
  }

  // ---- table, block and page descriptors ----

  /** `page | PTE_VALID | PTE_TABLE` for a page-aligned address. */
  lemma TableWord(a: Word)
    requires Below48(a) && forall i :: 0 <= i < 12 ==> !a[i]
    ensures Fields(Or(a, Mask(0, 2))) == TableDesc(PageOfWord(a))
  {
    hide Field, Pow2;
    var r := Or(a, Mask(0, 2));
    PageSplit(a);
    SameField(r, a, 12, 21);
    SameField(r, a, 21, 48);
    NoField(r, 2, 6);
    NoField(r, 6, 8);
    NoField(r, 8, 12);
    NoField(r, 48, 55);
    NoField(r, 55, 57);
    NoField(r, 57, 64);
  }

  /** The attribute bits of `make_block_entry`: MemAttr 5:2, S2AP 7:6, SH 9:8 and AF 10. */
  function AttrWord(attr: MemoryAttribute): Word
  {
    seq(64, i requires 0 <= i < 64 =>
      (attr != Device && 2 <= i < 6) || i == 6 || (attr != ReadOnly && i == 7) || (attr != Device && 8 <= i < 10) || i == 10)
  }

  /** `make_block_entry`. */
  function BlockWord(pa: Word, attr: MemoryAttribute): Word
  {
    Or(Or(And(pa, Not(Mask(0, 21))), AttrWord(attr)), Mask(0, 1))
  }

  lemma BlockWordIs(pa: Word, attr: MemoryAttribute)
    ensures Fields(BlockWord(pa, attr)) == BlockDesc(PageOfWord(pa), Field(pa, 48, 64), attr)
  {
    hide Field, Pow2;
    var r := BlockWord(pa, attr);
    PageSplit(pa);
    HighSplit(pa);
    SameField(r, pa, 21, 48);
    NoField(r, 12, 21);
    SameField(r, pa, 48, 55);
    SameField(r, pa, 55, 57);
    SameField(r, pa, 57, 64);
    AttrFields(r, attr);
  }

  function One(b: bool): nat { if b then 1 else 0 }

  lemma ValTwo(a: bool, b: bool)
    ensures Val([a, b]) == One(a) + 2 * One(b)
  {
    assert [a, b][1..] == [b] && [b][1..] == [];
  }

  lemma ValFour(a: bool, b: bool, c: bool, d: bool)
    ensures Val([a, b, c, d]) == One(a) + 2 * One(b) + 4 * One(c) + 8 * One(d)
  {
    assert [a, b, c, d][1..] == [b, c, d] && [b, c, d][1..] == [c, d];
    ValTwo(c, d);
  }

  /** The attribute fields of a word that carries `AttrWord`. */
  lemma AttrFields(r: Word, attr: MemoryAttribute)
    requires forall i :: 2 <= i < 12 ==> r[i] == AttrWord(attr)[i]
    ensures Field(r, 2, 6) == (if attr.Device? then DEVICE_ATTR else NORMAL_ATTR)
    ensures Field(r, 6, 8) == (if attr.ReadOnly? then S2AP_RO else S2AP_RW)
    ensures Field(r, 8, 12) == (if attr.Device? then DEVICE_SHAF else NORMAL_SHAF)
  {
    hide Pow2;
    Powers();
    if attr.Device? { NoField(r, 2, 6); } else { AllField(r, 2, 6); }
    ValTwo(true, attr != ReadOnly);
    ValFour(attr != Device, attr != Device, true, false);
    assert r[6] && r[7] == (attr != ReadOnly) && r[8] == (attr != Device) && r[9] == (attr != Device) && r[10] && !r[11];
    assert r[6..8] == [true, attr != ReadOnly];
    assert r[8..12] == [attr != Device, attr != Device, true, false];
  }

  /** The descriptor that `map_page` writes for an address. */
  function PageWord(ipa: Word, s2ap: nat, sw: nat): Word
  {
    var normal: Word := seq(64, i requires 0 <= i < 64 => 2 <= i < 6 || 8 <= i < 11);
    Or(Or(Or(Or(And(ipa, Not(Mask(0, 12))), normal), Shl(And(ToBits(s2ap, 64), Mask(0, 2)), 6)), Shl(And(ToBits(sw, 64), Mask(0, 2)), 55)), Mask(0, 2))
  }

  lemma PageWordBits(ipa: Word, s2ap: nat, sw: nat)
    ensures forall i :: 0 <= i < 64 ==> (
              PageWord(ipa, s2ap, sw)[i] ==
              ((12 <= i && ipa[i]) || i < 6 || (6 <= i < 8 && ToBits(s2ap, 64)[i - 6]) || 8 <= i < 11 || (55 <= i < 57 && ToBits(sw, 64)[i - 55])))
  {
    hide ToBits;
  }

  /** `map_page` writes the identity descriptor, with the address bits above 47 in its upper fields. */
  lemma PageWordIs(ipa: Word, s2ap: nat, sw: nat)
    ensures Fields(PageWord(ipa, s2ap, sw)) == PageDesc(PageOfWord(ipa), Field(ipa, 48, 64), s2ap, sw)
  {
    hide Pow2, PageWord, Field, ToBits, Or2;
    var r := PageWord(ipa, s2ap, sw);
    PageWordBits(ipa, s2ap, sw);
    PageSplit(ipa);
    HighSplit(ipa);
    Powers();
    AllField(r, 2, 6);
    NumberField(r, 6, 8, s2ap);
    ShAf(r);
    SameField(r, ipa, 12, 21);
    SameField(r, ipa, 21, 48);
    SameField(r, ipa, 48, 55);
    OwnerField(ipa, sw, r);
    SameField(r, ipa, 57, 64);
  }

  /** The three fields of the bits 63:48. */
  lemma HighSplit(a: Word)
    ensures var h := Field(a, 48, 64);
            h % 128 == Field(a, 48, 55) && h / 128 % 4 == Field(a, 55, 57) && h / 512 % 128 == Field(a, 57, 64)
  {
    hide Val, Pow2;
    Powers();
    var b := a[48..64];
    ValSplit(b, 7);
    assert b[..7] == a[48..55];
    var c := b[7..];
    ValSplit(c, 2);
    assert c[..2] == a[55..57] && c[2..] == a[57..64];
  }

  lemma OwnerField(ipa: Word, sw: nat, r: Word)
    requires forall i :: 55 <= i < 57 ==> r[i] == (ipa[i] || ToBits(sw, 64)[i - 55])
    ensures Field(ipa, 55, 57) < 4 && Field(r, 55, 57) == Or2(sw % 4, Field(ipa, 55, 57))
  {
    hide Val, ToBits, Pow2;
    Powers();
    var above := ipa[55..57];
    BitsOfVal(above);
    Lowest(sw, 64, 2);
    ValOfBits(sw, 2);
    BitsOfVal(ToBits(sw, 2));
    assert r[55..57] == Or(ToBits(sw, 2), above);
  }

  /** The address bits above 47 are zero, or ownership bits that are set anyway. */
  predicate NothingAbove(ipa: Word, sw: nat)
  {
    forall i :: 48 <= i < 64 && ipa[i] ==> 55 <= i < 57 && ToBits(sw, 64)[i - 55]
  }

  /** It is the descriptor meant exactly when no address bit above 47 gets in the way. */
  lemma PageWordMeant(ipa: Word, s2ap: nat, sw: nat)
    ensures Fields(PageWord(ipa, s2ap, sw)) == PageDesc(PageOfWord(ipa), 0, s2ap, sw) <==> NothingAbove(ipa, sw)
  {
    hide Pow2, PageWord, Field, ToBits, Or2;
    var r := PageWord(ipa, s2ap, sw);
    PageWordBits(ipa, s2ap, sw);
    PageWordIs(ipa, s2ap, sw);
    Powers();
    Or2Zero(sw % 4);
    if NothingAbove(ipa, sw) {
      NoField(r, 48, 55);
      NumberField(r, 55, 57, sw);
      NoField(r, 57, 64);
    } else {
      var i :| 48 <= i < 64 && ipa[i] && !(55 <= i < 57 && ToBits(sw, 64)[i - 55]);
      if i < 55 {
        SomeField(r, 48, 55, i);
      } else if i < 57 {
        if Field(r, 55, 57) == sw % 4 { FieldBits(r, 55, 57, sw, i); }
      } else {
        SomeField(r, 57, 64, i);
      }
    }
  }

  lemma SomeField(w: Word, lo: nat, hi: nat, i: nat)
    requires lo <= i < hi <= 64 && w[i]
    ensures Field(w, lo, hi) != 0
  {
    hide Val;
    ZeroBits(hi - lo);
    BitsOfVal(w[lo..hi]);
    assert w[lo..hi][i - lo];
  }

  lemma FieldBits(w: Word, lo: nat, hi: nat, x: nat, i: nat)
    requires lo <= i < hi <= 64 && Field(w, lo, hi) == x % Pow2(hi - lo)
    ensures w[i] == ToBits(x, 64)[i - lo]
  {
    hide Val, ToBits, Pow2;
    ValOfBits(x, hi - lo);
    BitsOfVal(w[lo..hi]);
    BitsOfVal(ToBits(x, hi - lo));
    Lowest(x, 64, hi - lo);
    assert w[lo..hi][i - lo] == ToBits(x, 64)[..hi - lo][i - lo];
  }

  lemma ShAf(r: Word)
    requires r[8] && r[9] && r[10] && !r[11]
    ensures Field(r, 8, 12) == NORMAL_SHAF
  {
    ValFour(true, true, true, false);
    assert r[8..12] == [true, true, true, false];
  }

  // ---- splitting ----

  /** `block_pa + i * 4096` of a split. */
  function SplitAddr(block: Word, i: U9): Word
  {
    var base := And(block, Not(Mask(0, 21)));
    ToBits(Val(base) + i * 4096, 64)
  }

  /** Page `i` of a split, by the walker and by the mapper. */
  function WalkerSplit(block: Word, i: U9): Word
  {
    Or(Or(Or(SplitAddr(block, i), And(block, Mask(55, 57))), And(And(block, Mask(0, 21)), Not(Mask(0, 2)))), Mask(0, 2))
  }

  function MapperSplit(block: Word, i: U9): Word
  {
    Or(Or(SplitAddr(block, i), And(And(block, Mask(0, 21)), Not(Mask(0, 2)))), Mask(0, 2))
  }

  /** The sum does not carry: bits 20:12 are those of `i`, those above are the block's. */
  lemma SplitAddrBits(block: Word, i: U9)
    ensures forall k :: 0 <= k < 64 ==> SplitAddr(block, i)[k] == if k < 12 then false else if k < 21 then ToBits(i, 9)[k - 12] else block[k]
  {
    hide Val, ToBits, Pow2;
    var base := And(block, Not(Mask(0, 21)));
    var low: Word := seq(64, k requires 0 <= k < 64 => 12 <= k < 21 && ToBits(i, 9)[k - 12]);
    LowIs(low, i);
    OrIsSum(base, low);
    BitsOfVal(Or(base, low));
  }

  lemma LowIs(low: Word, i: U9)
    requires forall k :: 0 <= k < 64 ==> low[k] == (12 <= k < 21 && ToBits(i, 9)[k - 12])
    ensures Val(low) == i * 4096
  {
    hide Val, ToBits, Pow2;
    Powers();
    ValSplit(low, 12);
    ValSplit(low[12..], 9);
    NoBits(low[..12]);
    NoBits(low[12..][9..]);
    assert low[12..][..9] == ToBits(i, 9);
    ValOfBits(i, 9);
  }

  /** Both splits write the same word, with the fields of `SplitDesc`. */
  lemma SplitWords(block: Word, i: U9)
    ensures MapperSplit(block, i) == WalkerSplit(block, i)
    ensures Fields(WalkerSplit(block, i)) == SplitDesc(Fields(block), i)
  {
    hide Field, Pow2, SplitAddr, Or9, ToBits;
    var r := WalkerSplit(block, i);
    SplitAddrBits(block, i);
    SplitBits(block, i);
    SameField(r, block, 2, 6);
    SameField(r, block, 6, 8);
    SameField(r, block, 8, 12);
    SameField(r, block, 21, 48);
    SameField(r, block, 48, 55);
    SameField(r, block, 55, 57);
    SameField(r, block, 57, 64);
    SplitLow(block, i, r);
  }

  lemma SplitBits(block: Word, i: U9)
    ensures MapperSplit(block, i) == WalkerSplit(block, i)
    ensures forall k :: 0 <= k < 64 ==> (
              WalkerSplit(block, i)[k] == if k < 2 then true else if 12 <= k < 21 then ToBits(i, 9)[k - 12] || block[k] else block[k])
  {
    hide SplitAddr, ToBits;
    SplitAddrBits(block, i);
  }

  lemma SplitLow(block: Word, i: U9, r: Word)
    requires forall k :: 12 <= k < 21 ==> r[k] == (ToBits(i, 9)[k - 12] || block[k])
    ensures Field(r, 12, 21) == Or9(i, Fields(block).low)
  {
    hide Val, ToBits, Pow2;
    var low := block[12..21];
    BitsOfVal(low);
    assert r[12..21] == Or(ToBits(i, 9), low);
  }
}
