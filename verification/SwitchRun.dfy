/** The switch over whole runs of traffic: where a frame goes is decided by the frames before it. */
module SwitchRun {
  import opened Descriptor
  import opened Sizes
  import opened VSwitch
  import opened NetPath

  /** A frame that enters the switch at a port. */
  datatype Packet = Packet(port: nat, frame: Frame)

  /** The switch started with an empty table and went through `trace`. */
  ghost predicate IsRun(trace: seq<SwitchState>, packets: seq<Packet>)
  {
    && |trace| == |packets| + 1 && |trace[0].table| == MAC_TABLE_SIZE && (forall e <- trace[0].table :: !e.valid)
    && |trace[0].queues| == MAX_PORTS && (forall p <- packets :: p.port < MAX_PORTS)
    && forall k :: 0 <= k < |packets| ==> SwitchStep(trace[k], packets[k].port, packets[k].frame, trace[k + 1])
  }

  /** The port from which the address sent last. */
  ghost function LastPort(packets: seq<Packet>, mac: Mac): Option<nat>
  {
    if packets == [] then None
    else
      var p := packets[|packets| - 1];
      if |p.frame| >= 14 && p.frame[6..12] == mac then Some(p.port) else LastPort(packets[..|packets| - 1], mac)
  }

  /** The addresses that have sent. */
  ghost function Senders(packets: seq<Packet>): set<Mac>
  {
    set p <- packets | |p.frame| >= 14 :: p.frame[6..12]
  }

  // ---- tables ----

  ghost function Macs(table: seq<MacEntry>): set<Mac> { set e <- table | e.valid :: e.mac }

  ghost predicate Distinct(table: seq<MacEntry>)
  {
    forall i, j :: 0 <= i < j < |table| && table[i].valid && table[j].valid ==> table[i].mac != table[j].mac
  }

  lemma {:induction false} CountMacs(table: seq<MacEntry>)
    requires Distinct(table)
    ensures |Macs(table)| == CountValid(table)
  {
    hide Macs, Distinct;
    if table == [] {
      NoMacs();
    } else {
      assert table == [table[0]] + table[1..];
      MacsStep(table[0], table[1..]);
      CountMacs(table[1..]);
    }
  }

  lemma NoMacs()
    ensures Macs([]) == {}
  {
  }

  lemma MacsStep(e: MacEntry, rest: seq<MacEntry>)
    requires Distinct([e] + rest)
    ensures Distinct(rest) && Macs([e] + rest) == (if e.valid then Macs(rest) + {e.mac} else Macs(rest)) && (e.valid ==> e.mac !in Macs(rest))
  {
    var table := [e] + rest;
    forall i, j | 0 <= i < j < |rest| && rest[i].valid && rest[j].valid ensures rest[i].mac != rest[j].mac {
      assert table[i + 1] == rest[i] && table[j + 1] == rest[j];
    }
    if e.valid {
      forall x <- rest | x.valid ensures x.mac != e.mac {
        var j :| 0 <= j < |rest| && rest[j] == x;
        assert table[0] == e && table[j + 1] == x;
      }
    }
  }

  lemma KnownMac(table: seq<MacEntry>, mac: Mac)
    ensures Lookup(table, mac).Some? <==> mac in Macs(table)
  {
    if mac in Macs(table) {
      var e :| e in table && e.valid && e.mac == mac;
      var j :| 0 <= j < |table| && table[j] == e;
      assert Matches(table[j], mac);
    } else {
      forall j | 0 <= j < |table| ensures !Matches(table[j], mac) { assert table[j] in table; }
    }
  }

  /** Learning keeps the addresses of the table distinct and adds at most the one learned. */
  lemma UpdateKeeps(table: seq<MacEntry>, table': seq<MacEntry>, mac: Mac, port: nat)
    requires Distinct(table) && Updated(table, table', mac, port)
    ensures Distinct(table') && |table'| == |table| && Macs(table') <= Macs(table) + {mac}
  {
    hide Lookup;
    if table' != table {
      var i :| WrittenAt(table, table', mac, port, i);
      KnownMac(table, mac);
      forall j | 0 <= j < |table| && j != i && table[j].valid ensures table[j].mac != mac {
        assert table[j] in table;
        if Matches(table[i], mac) { assert table[i].mac != table[j].mac; }
      }
      forall m <- Macs(table') ensures m in Macs(table) + {mac} {
        var e :| e in table' && e.valid && e.mac == m;
        var j :| 0 <= j < |table'| && table'[j] == e;
        if j != i { assert table[j] in table; }
      }
    }
  }

  // ---- runs ----

  lemma SendersStep(packets: seq<Packet>)
    requires packets != []
    ensures var front, p := packets[..|packets| - 1], packets[|packets| - 1];
            Senders(packets) == Senders(front) + if |p.frame| >= 14 then {p.frame[6..12]} else {}
  {
    var front, p := packets[..|packets| - 1], packets[|packets| - 1];
    assert packets == front + [p];
  }

  lemma Prefix(trace: seq<SwitchState>, packets: seq<Packet>)
    requires IsRun(trace, packets) && packets != []
    ensures IsRun(trace[..|packets|], packets[..|packets| - 1])
  {
    hide SwitchStep;
    var t, ps := trace[..|packets|], packets[..|packets| - 1];
    forall p <- ps ensures p.port < MAX_PORTS { assert p in packets; }
    forall k | 0 <= k < |ps| ensures SwitchStep(t[k], ps[k].port, ps[k].frame, t[k + 1]) {
      assert SwitchStep(trace[k], packets[k].port, packets[k].frame, trace[k + 1]);
    }
  }

  /** As long as at most sixteen addresses have sent, the table knows for every address the port from
      which it sent last. */
  lemma {:induction false} LearnsTraffic(trace: seq<SwitchState>, packets: seq<Packet>)
    requires IsRun(trace, packets) && |Senders(packets)| <= MAC_TABLE_SIZE
    ensures var s := trace[|packets|];
            && Distinct(s.table) && |s.table| == MAC_TABLE_SIZE && Macs(s.table) <= Senders(packets) && |s.queues| == MAX_PORTS
            && forall mac: Mac :: Lookup(s.table, mac) == LastPort(packets, mac)
  {
    if packets == [] {
      forall mac: Mac ensures Lookup(trace[0].table, mac).None? { KnownMac(trace[0].table, mac); }
    } else {
      hide Lookup, Macs, Distinct, Senders;
      var n := |packets| - 1;
      var p, front, s, s' := packets[n], packets[..n], trace[n], trace[n + 1];
      Prefix(trace, packets);
      SendersStep(packets);
      SubsetSize(Senders(front), Senders(packets));
      LearnsTraffic(trace[..n + 1], front);
      assert SwitchStep(trace[n], packets[n].port, packets[n].frame, trace[n + 1]);
      if |p.frame| >= 14 {
        var mac := p.frame[6..12];
        UpdateKeeps(s.table, s'.table, mac, p.port);
        RoomForNew(s.table, mac, Senders(packets));
        forall m: Mac ensures Lookup(s'.table, m) == LastPort(packets, m) {}
      }
    }
  }

  lemma RoomForNew(table: seq<MacEntry>, mac: Mac, seen: set<Mac>)
    requires Distinct(table) && |table| == MAC_TABLE_SIZE && Macs(table) <= seen && mac in seen && |seen| <= MAC_TABLE_SIZE
    ensures Lookup(table, mac).Some? || exists e <- table :: !e.valid
  {
    hide Lookup, Macs, Distinct;
    KnownMac(table, mac);
    CountMacs(table);
    FullTable(table);
    if mac !in Macs(table) { SubsetSize(Macs(table) + {mac}, seen); }
  }

  /** A frame reaches a port exactly if it came from another one and is a multicast or its destination
      sent last from that port or never sent; and if it is at most 1514 bytes long and fewer than eight
      wait there. */
  lemma ForwardsByTraffic(trace: seq<SwitchState>, packets: seq<Packet>, port: nat)
    requires IsRun(trace, packets) && packets != [] && |Senders(packets)| <= MAC_TABLE_SIZE && port < MAX_PORTS
    ensures var n := |packets| - 1;
            var p, q := packets[n], trace[n].queues;
            && |q| == MAX_PORTS && |trace[n + 1].queues| == MAX_PORTS
            && trace[n + 1].queues[port] ==
                 if |p.frame| >= 14 && port != p.port && (p.frame[0] % 2 == 1 || LastPort(packets, p.frame[..6]) in {None, Some(port)})
                    && |p.frame| <= 1514 && |q[port]| < 8
                 then q[port] + [p.frame] else q[port]
  {
    hide Lookup, Macs, Distinct, Learned, Updated, LastPort, Delivered, Targets, Senders;
    var n := |packets| - 1;
    var p := packets[n];
    Prefix(trace, packets);
    SendersStep(packets);
    SubsetSize(Senders(packets[..n]), Senders(packets));
    LearnsTraffic(trace[..n + 1], packets[..n]);
    LearnsTraffic(trace, packets);
    assert SwitchStep(trace[n], packets[n].port, packets[n].frame, trace[n + 1]);
    assert p in packets;
    if |p.frame| >= 14 {
      KnownPorts(packets, p.frame[..6]);
      ReachedExactly(trace[n].queues, trace[n + 1].table, p.port, p.frame, port);
    }
  }

  lemma ReachedExactly(queues: seq<seq<Frame>>, table: seq<MacEntry>, src: nat, frame: Frame, port: nat)
    requires |queues| == MAX_PORTS && src < MAX_PORTS && port < MAX_PORTS && |frame| >= 14
    requires Lookup(table, frame[..6]).Some? ==> Lookup(table, frame[..6]).value < MAX_PORTS
    ensures |Delivered(queues, Targets(table, src, frame[..6]), frame)| == MAX_PORTS
    ensures Delivered(queues, Targets(table, src, frame[..6]), frame)[port] ==
              if port != src && (frame[0] % 2 == 1 || Lookup(table, frame[..6]) in {None, Some(port)}) && |frame| <= 1514 && |queues[port]| < 8
              then queues[port] + [frame] else queues[port]
  {
    hide Lookup;
  }

  lemma {:induction false} KnownPorts(packets: seq<Packet>, mac: Mac)
    requires forall p <- packets :: p.port < MAX_PORTS
    ensures LastPort(packets, mac).Some? ==> LastPort(packets, mac).value < MAX_PORTS
  {
    if packets != [] {
      assert packets[|packets| - 1] in packets;
      KnownPorts(packets[..|packets| - 1], mac);
    }
  }
}
