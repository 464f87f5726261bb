/** The virtual switch and its per-port receive rings (src/vswitch.rs). */
module VSwitch {
  import opened ByteBuffer
  import opened Descriptor
  import opened Modular
  import opened Net

  const MAX_PORTS := 2
  const MAC_TABLE_SIZE := 16
  const RING_SIZE := 9

  type Frame = seq<Byte>

  type Mac = seq<Byte>

  datatype MacEntry = MacEntry(mac: Mac, port: nat, valid: bool)

  // ---- tables ----

  /** The port of the first valid entry for the address. */
  function Lookup(table: seq<MacEntry>, mac: Mac): Option<nat>
  {
    LookupFrom(table, mac, 0)
  }

  predicate Matches(e: MacEntry, mac: Mac) { e.valid && e.mac == mac }

  function LookupFrom(table: seq<MacEntry>, mac: Mac, i: nat): (r: Option<nat>)
    requires i <= |table|
    ensures r.None? <==> forall j :: i <= j < |table| ==> !Matches(table[j], mac)
    ensures r.Some? ==> exists e <- table :: e.valid && e.port == r.value
    decreases |table| - i
  {
    if i == |table| then None
    else if Matches(table[i], mac) then Some(table[i].port)
    else LookupFrom(table, mac, i + 1)
  }

  function CountValid(table: seq<MacEntry>): nat
  {
    if table == [] then 0 else (if table[0].valid then 1 else 0) + CountValid(table[1..])
  }

  /** What is looked up after an address was learned: only that address changes, and it does if it
      was known or an entry was free. */
  ghost predicate Learned(table: seq<MacEntry>, table': seq<MacEntry>, mac: Mac, port: nat)
  {
    forall m: Mac ::
      Lookup(table', m) == if m == mac && (Lookup(table, mac).Some? || exists e <- table :: !e.valid) then Some(port) else Lookup(table, m)
  }

  /** At most one entry was written: that of the address, or a free one if there is none. */
  ghost predicate Updated(table: seq<MacEntry>, table': seq<MacEntry>, mac: Mac, port: nat)
  {
    table' == table || exists i :: WrittenAt(table, table', mac, port, i)
  }

  ghost predicate WrittenAt(table: seq<MacEntry>, table': seq<MacEntry>, mac: Mac, port: nat, i: int)
  {
    0 <= i < |table| && (Matches(table[i], mac) || (!table[i].valid && Lookup(table, mac).None?)) && table' == table[i := MacEntry(mac, port, true)]
  }

  lemma {:induction false} LookupSame(table: seq<MacEntry>, i: nat, e: MacEntry, mac: Mac, k: nat)
    requires i < |table| && k <= |table| && !Matches(table[i], mac) && !Matches(e, mac)
    ensures LookupFrom(table[i := e], mac, k) == LookupFrom(table, mac, k)
    decreases |table| - k
  {
    if k < |table| { LookupSame(table, i, e, mac, k + 1); }
  }

  lemma {:induction false} LookupHit(table: seq<MacEntry>, i: nat, e: MacEntry, mac: Mac, k: nat)
    requires k <= i < |table| && Matches(e, mac) && forall j :: k <= j < i ==> !Matches(table[j], mac)
    ensures LookupFrom(table[i := e], mac, k) == Some(e.port)
    decreases |table| - k
  {
    if k < i { LookupHit(table, i, e, mac, k + 1); }
  }

  /** Writing the first entry that matches, or a free one if none does, learns the address. */
  lemma LearnAt(table: seq<MacEntry>, i: nat, mac: Mac, port: nat)
    requires i < |table| && forall j :: 0 <= j < i ==> !Matches(table[j], mac)
    requires Matches(table[i], mac) || (!table[i].valid && Lookup(table, mac).None?)
    ensures Learned(table, table[i := MacEntry(mac, port, true)], mac, port)
  {
    var e := MacEntry(mac, port, true);
    LookupHit(table, i, e, mac, 0);
    assert table[i] in table;
    forall m: Mac | m != mac ensures Lookup(table[i := e], m) == Lookup(table, m) { LookupSame(table, i, e, m, 0); }
  }

  /** The table is full exactly when the count says so. */
  lemma {:induction false} FullTable(table: seq<MacEntry>)
    ensures CountValid(table) <= |table|
    ensures CountValid(table) < |table| <==> exists e <- table :: !e.valid
  {
    if table != [] {
      FullTable(table[1..]);
      assert table == [table[0]] + table[1..];
    }
  }

  lemma {:induction false} OneMoreValid(table: seq<MacEntry>, i: nat, e: MacEntry)
    requires i < |table| && e.valid
    ensures CountValid(table[i := e]) == CountValid(table) + if table[i].valid then 0 else 1
  {
    if i > 0 {
      OneMoreValid(table[1..], i - 1, e);
      assert table[i := e][1..] == table[1..][i - 1 := e];
    } else {
      assert table[i := e][1..] == table[1..];
    }
  }

  /** The ports that a frame for `dst` goes to. */
  ghost function Targets(table: seq<MacEntry>, src: nat, dst: Mac): set<nat>
    requires |dst| == 6
  {
    var known := Lookup(table, dst);
    if dst[0] % 2 == 0 && known.Some? then {known.value} - {src} else {0, 1} - {src}
  }

  predicate Acceptable(frame: Frame, queued: nat) { 0 < |frame| <= MAX_FRAME_SIZE && queued < RING_SIZE - 1 }

  function Offered(queue: seq<Frame>, frame: Frame): seq<Frame>
  {
    if Acceptable(frame, |queue|) then queue + [frame] else queue
  }

  /** The queues of the ports after a frame was offered to the targets. */
  ghost function Delivered(queues: seq<seq<Frame>>, targets: set<nat>, frame: Frame): seq<seq<Frame>>
  {
    seq(|queues|, p requires 0 <= p < |queues| => if p in targets then Offered(queues[p], frame) else queues[p])
  }

  // ---- rings ----

  /** A receive ring used by one side at a time; `Ring` covers concurrent use. */
  class NetRxRing {
    const slots: array<Frame>
    var head: nat
    var tail: nat
    ghost var accepted: seq<Frame>
    ghost var taken: nat

    ghost predicate Valid()
      reads this, slots
    {
      && slots.Length == RING_SIZE && taken <= |accepted| < taken + RING_SIZE
      && head == Mod(taken, RING_SIZE) && tail == Mod(|accepted|, RING_SIZE)
      && forall k :: taken <= k < |accepted| ==> slots[Mod(k, RING_SIZE)] == accepted[k]
    }

    ghost function Contents(): seq<Frame>
      reads this, slots
      requires Valid()
    {
      accepted[taken..]
    }

    constructor ()
      ensures Valid() && fresh(slots) && Contents() == []
    {
      slots := new Frame[RING_SIZE](_ => []);
      head, tail, accepted, taken := 0, 0, [], 0;
      IsMod(0, 0, 0, RING_SIZE);
    }

    /** Accepts a frame of 1 to 1514 bytes unless eight are waiting. */
    method Store(frame: Frame) returns (ok: bool)
      requires Valid()
      modifies this, slots
      ensures Valid() && ok == Acceptable(frame, |old(Contents())|)
      ensures Contents() == if ok then old(Contents()) + [frame] else old(Contents())
    {
      hide Mod;
      if |frame| == 0 || |frame| > MAX_FRAME_SIZE { return false; }
      ghost var n := |accepted|;
      var next := Mod(tail + 1, RING_SIZE);
      After(n, RING_SIZE);
      AddTurn(taken, RING_SIZE);
      Wraps(taken + RING_SIZE, n + 1, RING_SIZE);
      if next == head { return false; }
      forall k: nat | taken <= k < n ensures Mod(k, RING_SIZE) != tail { Wraps(n, k, RING_SIZE); }
      slots[tail] := frame;
      tail := next;
      accepted := accepted + [frame];
      return true;
    }

    method Take() returns (r: Option<Frame>)
      requires Valid()
      modifies this
      ensures Valid()
      ensures match r
              case None => old(Contents()) == [] && Contents() == []
              case Some(f) => old(Contents()) == [f] + Contents()
    {
      hide Mod;
      Wraps(|accepted|, taken, RING_SIZE);
      if head == tail { return None; }
      r := Some(slots[head]);
      After(taken, RING_SIZE);
      head := Mod(head + 1, RING_SIZE);
      taken := taken + 1;
    }
  }

  // ---- the switch ----

  class Switch {
    const table: array<MacEntry>
    var macCount: nat
    const ports: seq<NetRxRing>

    ghost predicate TableOk()
      reads this, table
    {
      && table.Length == MAC_TABLE_SIZE && macCount == CountValid(table[..])
      && forall e <- table[..] :: e.valid ==> e.port < MAX_PORTS
    }

    ghost predicate Valid()
      reads this, table, ports, set p <- ports :: p.slots
    {
      && TableOk() && table.Length == MAC_TABLE_SIZE
      && |ports| == MAX_PORTS && ports[0] != ports[1] && ports[0].slots != ports[1].slots
      && forall p <- ports :: p.Valid()
    }

    constructor ()
      ensures Valid() && forall p <- ports :: p.Contents() == []
    {
      table := new MacEntry[MAC_TABLE_SIZE](_ => MacEntry([], 0, false));
      macCount := 0;
      var p := new NetRxRing();
      var q := new NetRxRing();
      ports := [p, q];
      new;
      NoneValid(table[..]);
    }

    method LookupPort(mac: Mac) returns (r: Option<nat>)
      requires table.Length == MAC_TABLE_SIZE
      ensures r == Lookup(table[..], mac)
    {
      for i := 0 to table.Length
        invariant Lookup(table[..], mac) == LookupFrom(table[..], mac, i)
      {
        if Matches(table[i], mac) { return Some(table[i].port); }
      }
      return None;
    }

    /** `learn`. */
    method Learn(mac: Mac, port: nat)
      requires TableOk() && port < MAX_PORTS
      modifies this`macCount, table
      ensures TableOk() && Learned(old(table[..]), table[..], mac, port) && Updated(old(table[..]), table[..], mac, port)
    {
      hide CountValid, Lookup;
      ghost var before := table[..];
      for i := 0 to table.Length
        invariant table[..] == before && macCount == old(macCount)
        invariant forall j :: 0 <= j < i ==> !Matches(table[j], mac)
      {
        if Matches(table[i], mac) {
          LearnAt(before, i, mac, port);
          OneMoreValid(before, i, MacEntry(mac, port, true));
          table[i] := table[i].(port := port);
          assert WrittenAt(before, table[..], mac, port, i);
          return;
        }
      }
      Unknown(before, mac);
      FullTable(before);
      if macCount < MAC_TABLE_SIZE {
        for i := 0 to table.Length
          invariant table[..] == before && macCount == old(macCount)
          invariant forall j :: 0 <= j < i ==> table[j].valid
        {
          if !table[i].valid {
            LearnAt(before, i, mac, port);
            OneMoreValid(before, i, MacEntry(mac, port, true));
            table[i] := MacEntry(mac, port, true);
            macCount := macCount + 1;
            assert WrittenAt(before, table[..], mac, port, i);
            return;
          }
        }
      }
    }

    ghost function Queues(): (q: seq<seq<Frame>>)
      reads this, table, ports, set p <- ports :: p.slots
      requires Valid()
      ensures |q| == MAX_PORTS
    {
      [ports[0].Contents(), ports[1].Contents()]
    }

    method StoreTo(p: nat, frame: Frame)
      requires Valid() && p < MAX_PORTS
      modifies ports, set r <- ports :: r.slots
      ensures Valid() && Queues() == old(Queues())[p := Offered(old(Queues())[p], frame)]
    {
      hide TableOk, NetRxRing.Valid, Acceptable;
      assert ports[0] in ports && ports[1] in ports;
      var _ := ports[p].Store(frame);
    }

    /** `flood`: all ports but the source. */
    method Flood(src: nat, frame: Frame)
      requires Valid() && src < MAX_PORTS
      modifies ports, set r <- ports :: r.slots
      ensures Valid() && Queues() == Delivered(old(Queues()), {0, 1} - {src}, frame)
    {
      hide TableOk, Offered;
      for port := 0 to MAX_PORTS
        invariant Valid() && Queues() == Delivered(old(Queues()), (if port == 0 then {} else if port == 1 then {0} else {0, 1}) - {src}, frame)
      {
        if port != src { StoreTo(port, frame); }
      }
    }

    /** `forward`: the source address is learned, then the frame is offered to its targets, never
        to the port it came from. */
    method Forward(src: nat, frame: Frame)
      requires Valid() && src < MAX_PORTS
      modifies this`macCount, table, ports, set r <- ports :: r.slots
      ensures Valid()
      ensures |frame| < 14 ==> table[..] == old(table[..]) && Queues() == old(Queues())
      ensures |frame| >= 14 ==>
                && Learned(old(table[..]), table[..], frame[6..12], src) && Updated(old(table[..]), table[..], frame[6..12], src)
                && Queues() == Delivered(old(Queues()), Targets(table[..], src, frame[..6]), frame)
    {
      hide Learned, Updated, Delivered, TableOk, Lookup;
      if |frame| < 14 { return; }
      var dst := frame[0..6];
      assert dst == frame[..6];
      assert ports[0] in ports && ports[1] in ports;
      Learn(frame[6..12], src);
      if dst[0] % 2 != 0 {
        Flood(src, frame);
        return;
      }
      var known := LookupPort(dst);
      if known.Some? {
        KnownPort(this, dst);
        NoTarget(Queues(), frame);
        OneTarget(Queues(), known.value, frame);
        assert {known.value} - {src} == if known.value == src then {} else {known.value};
        if known.value != src { StoreTo(known.value, frame); }
      } else {
        Flood(src, frame);
      }
    }
  }

  lemma KnownPort(s: Switch, mac: Mac)
    requires s.TableOk()
    ensures Lookup(s.table[..], mac).Some? ==> Lookup(s.table[..], mac).value < MAX_PORTS
  {
  }

  lemma NoTarget(queues: seq<seq<Frame>>, frame: Frame)
    ensures Delivered(queues, {}, frame) == queues
  {
  }

  lemma OneTarget(queues: seq<seq<Frame>>, p: nat, frame: Frame)
    requires p < |queues|
    ensures Delivered(queues, {p}, frame) == queues[p := Offered(queues[p], frame)]
  {
  }

  lemma Unknown(table: seq<MacEntry>, mac: Mac)
    requires forall j :: 0 <= j < |table| ==> !Matches(table[j], mac)
    ensures Lookup(table, mac).None?
  {
  }

  lemma {:induction false} NoneValid(table: seq<MacEntry>)
    requires forall i :: 0 <= i < |table| ==> !table[i].valid
    ensures CountValid(table) == 0
  {
    if table != [] { NoneValid(table[1..]); }
  }
}
