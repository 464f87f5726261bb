/** The split virtqueue of section 2.7 of Virtio 1.2 (src/devices/virtio/queue.rs): 16-bit
free-running indices into rings of `num` entries, and descriptor chains of at most four. */
module Virtqueue {
  import opened Descriptor
  import opened Modular

  const WRAP16 := 0x1_0000
  const MAX_CHAIN := 4

  datatype Desc = Desc(addr: nat, len: nat, write: bool, next: Option<nat>)

  datatype Used = Used(id: nat, len: nat)

  /** The ring slot of the `k`-th entry. */
  function SlotOf(k: nat, num: nat): (i: nat)
    requires num > 0
    ensures i < num
  {
    Mod(Mod(k, WRAP16), num)
  }

  /** When the size divides 2^16, the wrap of the index does not show. */
  lemma SlotIsMod(k: nat, num: nat)
    requires num > 0 && WRAP16 % num == 0
    ensures SlotOf(k, num) == Mod(k, num)
  {
    var q, r, c := k / WRAP16, k % WRAP16, WRAP16 / num;
    assert WRAP16 == c * num;
    assert k == (q * c + r / num) * num + r % num by {
      assert q * WRAP16 == q * c * num;
    }
    IsMod(k, q * c + r / num, r % num, num);
  }

  /** Entries that can be in the ring together have different slots, wherever the index is, exactly
      when the size divides 2^16. */
  lemma SlotsDiffer(num: nat)
    requires 0 < num < WRAP16
    ensures WRAP16 % num == 0 <==> forall i: nat, j: nat :: i < j < i + num ==> SlotOf(i, num) != SlotOf(j, num)
  {
    hide SlotOf;
    if WRAP16 % num == 0 {
      forall i: nat, j: nat | i < j < i + num ensures SlotOf(i, num) != SlotOf(j, num) { DividesDiffer(i, j, num); }
    } else {
      Collide(num);
    }
  }

  lemma DividesDiffer(i: nat, j: nat, num: nat)
    requires 0 < num && WRAP16 % num == 0 && i < j < i + num
    ensures SlotOf(i, num) != SlotOf(j, num)
  {
    hide Mod;
    SlotIsMod(i, num);
    SlotIsMod(j, num);
    Wraps(j, i, num);
  }

  /** The first entry after the wrap falls on one that is less than `num` entries older. */
  lemma Collide(num: nat)
    requires 0 < num < WRAP16 && WRAP16 % num != 0
    ensures SlotOf(WRAP16 - WRAP16 % num, num) == SlotOf(WRAP16, num)
  {
    var i := WRAP16 - WRAP16 % num;
    IsMod(i, WRAP16 / num, 0, num);
    IsMod(i, 0, i, WRAP16);
    IsMod(WRAP16, 1, 0, WRAP16);
    IsMod(0, 0, 0, num);
  }

  /** The chain from a descriptor: it ends after four, at an index outside the table, or at a
      descriptor without a successor. */
  function ChainFrom(table: seq<Desc>, idx: nat, left: nat): (c: seq<Desc>)
    ensures |c| <= left
    decreases left
  {
    if left == 0 || idx >= |table| then []
    else [table[idx]] + if table[idx].next.Some? then ChainFrom(table, table[idx].next.value, left - 1) else []
  }

  /** The chain starts at the head, each descriptor is followed by its successor in the table, and it
      ends only after `left` descriptors, without a successor, or with one outside the table. */
  ghost predicate IsChain(table: seq<Desc>, head: nat, left: nat, c: seq<Desc>)
  {
    && (c == [] <==> left == 0 || head >= |table|) && |c| <= left
    && (c != [] ==> head < |table| && c[0] == table[head])
    && (forall k :: 0 <= k < |c| - 1 ==> Follows(table, c[k], c[k + 1]))
    && (0 < |c| < left ==> var next := c[|c| - 1].next; next.None? || next.value >= |table|)
  }

  lemma {:induction false} ChainLinks(table: seq<Desc>, head: nat, left: nat)
    ensures IsChain(table, head, left, ChainFrom(table, head, left))
    decreases left
  {
    hide IsChain;
    if left > 0 && head < |table| && table[head].next.Some? {
      ChainLinks(table, table[head].next.value, left - 1);
      LongerChain(table, head, left, ChainFrom(table, table[head].next.value, left - 1));
    } else {
      ShortChain(table, head, left);
      assert left > 0 && head < |table| ==> ChainFrom(table, head, left) == [table[head]];
    }
  }

  lemma ShortChain(table: seq<Desc>, head: nat, left: nat)
    requires left == 0 || head >= |table| || table[head].next.None?
    ensures IsChain(table, head, left, if left == 0 || head >= |table| then [] else [table[head]])
  {
  }

  lemma LongerChain(table: seq<Desc>, head: nat, left: nat, rest: seq<Desc>)
    requires left > 0 && head < |table| && table[head].next.Some? && IsChain(table, table[head].next.value, left - 1, rest)
    ensures IsChain(table, head, left, [table[head]] + rest)
  {
    var c := [table[head]] + rest;
    forall k | 0 <= k < |c| - 1 ensures Follows(table, c[k], c[k + 1]) {
      if k > 0 { assert Follows(table, rest[k - 1], rest[k - 1 + 1]); }
    }
  }

  ghost predicate Follows(table: seq<Desc>, a: Desc, b: Desc)
  {
    a.next.Some? && a.next.value < |table| && b == table[a.next.value]
  }

  datatype Chain = Chain(head: nat, descs: seq<Desc>)

  class Virtqueue {
    const num: nat
    /** Set once the driver has set the queue up. */
    var ready: bool
    /** What the guest keeps in memory: the descriptor table and the available ring. */
    var table: seq<Desc>
    var avail: seq<nat>
    var availIdx: nat
    /** What the device keeps. */
    var lastAvailIdx: nat
    var used: seq<Used>
    var usedIdx: nat
    /** The heads posted by the guest, how many were taken, and the chains given back. */
    ghost var posted: seq<nat>
    ghost var taken: nat
    ghost var returned: seq<Used>

    ghost predicate Valid()
      reads this
    {
      && 0 < num < WRAP16 && WRAP16 % num == 0
      && |table| == num && |avail| == num && |used| == num
      && availIdx == Mod(|posted|, WRAP16) && lastAvailIdx == Mod(taken, WRAP16) && usedIdx == Mod(|returned|, WRAP16)
      && taken <= |posted| <= taken + num
      && (forall k :: taken <= k < |posted| ==> avail[SlotOf(k, num)] == posted[k])
      && (forall k: nat :: k < |returned| <= k + num ==> used[SlotOf(k, num)] == returned[k])
    }

    constructor (table: seq<Desc>)
      requires 0 < |table| < WRAP16 && WRAP16 % |table| == 0
      ensures Valid() && num == |table| && this.table == table && ready && posted == [] && taken == 0 && returned == []
    {
      num, this.table, ready := |table|, table, true;
      avail, used := seq(|table|, _ => 0), seq(|table|, _ => Used(0, 0));
      availIdx, lastAvailIdx, usedIdx := 0, 0, 0;
      posted, taken, returned := [], 0, [];
      IsMod(0, 0, 0, WRAP16);
    }

    /** The guest makes a chain available. */
    method Post(head: nat)
      requires Valid() && |posted| < taken + num
      modifies this
      ensures Valid() && posted == old(posted) + [head] && taken == old(taken)
      ensures table == old(table) && returned == old(returned) && ready == old(ready)
    {
      hide Mod, SlotOf;
      assert Mod(availIdx, num) == SlotOf(|posted|, num) by { SlotIs(|posted|, num); }
      forall k: nat | taken <= k < |posted| ensures SlotOf(k, num) != SlotOf(|posted|, num) { DividesDiffer(k, |posted|, num); }
      After(|posted|, WRAP16);
      avail := avail[Mod(availIdx, num) := head];
      availIdx := Mod(availIdx + 1, WRAP16);
      posted := posted + [head];
    }

    /** `get_avail_desc`: the chain posted next, in the order of posting. */
    method GetAvailDesc() returns (r: Option<Chain>)
      requires Valid()
      modifies this
      ensures Valid() && posted == old(posted) && table == old(table) && returned == old(returned) && ready == old(ready)
      ensures r.None? <==> !ready || old(taken) == |posted|
      ensures r.None? ==> taken == old(taken)
      ensures r.Some? ==> taken == old(taken) + 1 && r.value == Chain(posted[old(taken)], ChainFrom(table, posted[old(taken)], 4))
    {
      hide Mod, SlotOf;
      Wraps(|posted|, taken, WRAP16);
      if !ready || availIdx == lastAvailIdx { return None; }
      assert Mod(lastAvailIdx, num) == SlotOf(taken, num) by { SlotIs(taken, num); }
      var head := avail[Mod(lastAvailIdx, num)];
      After(taken, WRAP16);
      lastAvailIdx := Mod(lastAvailIdx + 1, WRAP16);
      taken := taken + 1;
      var descs := WalkChain(head);
      r := Some(Chain(head, descs));
    }

    /** The loop that walks the chain. */
    method WalkChain(head: nat) returns (descs: seq<Desc>)
      requires |table| == num
      ensures descs == ChainFrom(table, head, MAX_CHAIN)
    {
      hide ChainFrom;
      descs := [];
      var idx: nat := head;
      for n := 0 to MAX_CHAIN
        invariant ChainFrom(table, head, MAX_CHAIN) == descs + ChainFrom(table, idx, MAX_CHAIN - n)
      {
        ChainStep(table, idx, MAX_CHAIN - n, descs);
        if idx >= num { return; }
        var desc := table[idx];
        descs := descs + [desc];
        if desc.next.None? { return; }
        idx := desc.next.value;
      }
      ChainEnd(table, idx, descs);
    }

    /** `put_used`: the last `num` chains given back can be read off the ring. */
    method PutUsed(head: nat, len: nat)
      requires Valid()
      modifies this
      ensures Valid() && returned == old(returned) + [Used(head, len)]
      ensures posted == old(posted) && table == old(table) && taken == old(taken) && ready == old(ready)
    {
      hide Mod, SlotOf;
      ghost var n := |returned|;
      assert Mod(usedIdx, num) == SlotOf(n, num) by { SlotIs(n, num); }
      forall k: nat | k < n < k + num ensures SlotOf(k, num) != SlotOf(n, num) { DividesDiffer(k, n, num); }
      After(n, WRAP16);
      used := used[Mod(usedIdx, num) := Used(head, len)];
      usedIdx := Mod(usedIdx + 1, WRAP16);
      returned := returned + [Used(head, len)];
    }
  }

  lemma ChainStep(table: seq<Desc>, idx: nat, left: nat, before: seq<Desc>)
    requires left > 0
    ensures before + ChainFrom(table, idx, left) ==
            if idx >= |table| then before
            else if table[idx].next.None? then before + [table[idx]]
            else before + [table[idx]] + ChainFrom(table, table[idx].next.value, left - 1)
  {
  }

  lemma ChainEnd(table: seq<Desc>, idx: nat, before: seq<Desc>)
    ensures before + ChainFrom(table, idx, 0) == before
  {
  }

  lemma SlotIs(k: nat, num: nat)
    requires num > 0
    ensures Mod(Mod(k, WRAP16), num) == SlotOf(k, num)
  {
  }
}
