/** From a guest's transmit queue through the switch into another guest's receive buffers
(src/devices/virtio/net.rs:46-97, src/vm.rs:961-970, src/devices/virtio/mmio.rs:326-403). */
module NetPath {
  import opened ByteBuffer
  import opened Descriptor
  import opened Modular
  import opened Virtqueue
  import opened Net
  import opened Sizes
  import opened VSwitch

  /** The chain that the device takes next. */
  ghost predicate HasNext(q: Virtqueue)
    reads q
  {
    q.ready && q.taken < |q.posted|
  }

  ghost function NextHead(q: Virtqueue): nat
    reads q
    requires HasNext(q)
  {
    q.posted[q.taken]
  }

  ghost function NextChain(q: Virtqueue): seq<Desc>
    reads q
    requires HasNext(q)
  {
    ChainFrom(q.table, NextHead(q), MAX_CHAIN)
  }

  lemma {:induction false} ChainInMemory(table: seq<Desc>, idx: nat, left: nat, size: nat)
    requires InMemory(table, size)
    ensures InMemory(ChainFrom(table, idx, left), size)
    decreases left
  {
    if left > 0 && idx < |table| {
      assert table[idx] in table;
      if table[idx].next.Some? { ChainInMemory(table, table[idx].next.value, left - 1, size); }
    }
  }

  /** The address table and the queues of the ports. */
  datatype SwitchState = SwitchState(table: seq<MacEntry>, queues: seq<seq<Frame>>)

  ghost function StateOf(sw: Switch): SwitchState
    reads sw, sw.table, sw.ports, set p <- sw.ports :: p.slots
    requires sw.Valid()
  {
    SwitchState(sw.table[..], sw.Queues())
  }

  /** What a frame from `port` does to the switch: nothing if it has no Ethernet header. */
  ghost predicate SwitchStep(s: SwitchState, port: nat, f: Frame, s': SwitchState)
  {
    if |f| < 14 then s' == s
    else Learned(s.table, s'.table, f[6..12], port) && Updated(s.table, s'.table, f[6..12], port) && s'.queues == Delivered(s.queues, Targets(s'.table, port, f[..6]), f)
  }

  /** One turn of the `process_tx` loop: the frame gathered from the next chain goes to the switch
      if it has an Ethernet header, and the chain goes back. */
  method TransmitOne(q: Virtqueue, mem: seq<Byte>, sw: Switch, port: nat) returns (sent: bool)
    requires q.Valid() && sw.Valid() && port < MAX_PORTS && InMemory(q.table, |mem|)
    modifies q, sw`macCount, sw.table, sw.ports, set r <- sw.ports :: r.slots
    ensures q.Valid() && sw.Valid() && q.posted == old(q.posted) && q.table == old(q.table) && q.ready == old(q.ready)
    ensures sent == old(HasNext(q))
    ensures !sent ==> q.taken == old(q.taken) && q.returned == old(q.returned) && StateOf(sw) == old(StateOf(sw))
    ensures sent ==> q.taken == old(q.taken) + 1 && q.returned == old(q.returned) + [Used(old(NextHead(q)), 0)] && InMemory(old(NextChain(q)), |mem|)
    ensures sent ==> SwitchStep(old(StateOf(sw)), port, Gathered(mem, old(NextChain(q))), StateOf(sw))
  {
    hide Virtqueue.Valid, Switch.Valid, Gathered, Learned, Updated, Delivered, Targets, ChainFrom;
    var r := NextOf(q);
    if r.None? { return false; }
    ChainInMemory(q.table, r.value.head, MAX_CHAIN, |mem|);
    var frame := GatherFrame(mem, r.value.descs);
    if |frame| >= 14 { sw.Forward(port, frame); }
    q.PutUsed(r.value.head, 0);
    return true;
  }

  method NextOf(q: Virtqueue) returns (r: Option<Chain>)
    requires q.Valid()
    modifies q
    ensures q.Valid() && q.posted == old(q.posted) && q.table == old(q.table) && q.returned == old(q.returned) && q.ready == old(q.ready)
    ensures r.Some? == old(HasNext(q))
    ensures q.taken == old(q.taken) + if r.Some? then 1 else 0
    ensures r.Some? ==> r.value == Chain(old(NextHead(q)), old(NextChain(q)))
  {
    hide ChainFrom, Mod, SlotOf;
    r := q.GetAvailDesc();
  }

  /** The switch went through `trace`, one frame of each chain at a time. */
  ghost predicate Forwarded(trace: seq<SwitchState>, port: nat, mem: seq<Byte>, table: seq<Desc>, heads: seq<nat>)
  {
    |trace| == |heads| + 1 && forall k :: 0 <= k < |heads| ==> ChainSent(trace[k], port, mem, ChainAt(table, heads[k]), trace[k + 1])
  }

  ghost predicate ChainSent(s: SwitchState, port: nat, mem: seq<Byte>, chain: seq<Desc>, s': SwitchState)
  {
    InMemory(chain, |mem|) && SwitchStep(s, port, Gathered(mem, chain), s')
  }

  lemma ForwardedStep(trace: seq<SwitchState>, port: nat, mem: seq<Byte>, table: seq<Desc>, heads: seq<nat>, head: nat, s: SwitchState)
    requires Forwarded(trace, port, mem, table, heads) && ChainSent(trace[|heads|], port, mem, ChainAt(table, head), s)
    ensures Forwarded(trace + [s], port, mem, table, heads + [head])
  {
    hide ChainSent, ChainAt;
    var trace', heads' := trace + [s], heads + [head];
    forall k | 0 <= k < |heads'| ensures ChainSent(trace'[k], port, mem, ChainAt(table, heads'[k]), trace'[k + 1]) {
      if k < |heads| { assert trace'[k] == trace[k] && trace'[k + 1] == trace[k + 1] && heads'[k] == heads[k]; }
    }
  }

  /** `process_tx`: every chain is taken, its frame forwarded and the chain given back, in order. */
  method ProcessTx(q: Virtqueue, mem: seq<Byte>, sw: Switch, port: nat) returns (ghost trace: seq<SwitchState>)
    requires q.Valid() && sw.Valid() && port < MAX_PORTS && InMemory(q.table, |mem|)
    modifies q, sw`macCount, sw.table, sw.ports, set r <- sw.ports :: r.slots
    ensures q.Valid() && sw.Valid() && !HasNext(q)
    ensures q.posted == old(q.posted) && old(q.taken) <= q.taken <= |q.posted|
    ensures var heads := Part(q.posted, old(q.taken), q.taken);
            && q.returned == old(q.returned) + GivenBack(heads)
            && Forwarded(trace, port, mem, old(q.table), heads) && trace[0] == old(StateOf(sw)) && trace[|heads|] == StateOf(sw)
  {
    hide Virtqueue.Valid, Switch.Valid, Gathered, SwitchStep, StateOf, Forwarded, Part, ChainFrom, GivenBack, InMemory;
    var more := true;
    QueueBounds(q);
    trace := [StateOf(sw)];
    ghost var heads := [];
    NoneForwarded(trace, port, mem, q.table, q.posted, q.taken);
    while more
      invariant q.Valid() && sw.Valid() && InMemory(q.table, |mem|) && (!more ==> !HasNext(q))
      invariant q.posted == old(q.posted) && q.table == old(q.table) && old(q.taken) <= q.taken <= |q.posted|
      invariant heads == Part(q.posted, old(q.taken), q.taken) && q.returned == old(q.returned) + GivenBack(heads)
      invariant Forwarded(trace, port, mem, q.table, heads) && |trace| == |heads| + 1
      invariant trace[0] == old(StateOf(sw)) && trace[|heads|] == StateOf(sw)
      decreases |q.posted| - q.taken, more
    {
      ghost var k := q.taken;
      more := TransmitOne(q, mem, sw, port);
      QueueBounds(q);
      if more {
        PartStep(q.posted, old(q.taken), k);
        GivenBackStep(heads, q.posted[k]);
        ForwardedStep(trace, port, mem, q.table, heads, q.posted[k], StateOf(sw));
        trace := trace + [StateOf(sw)];
        heads := heads + [q.posted[k]];
      }
    }
  }

  lemma NoneForwarded(trace: seq<SwitchState>, port: nat, mem: seq<Byte>, table: seq<Desc>, posted: seq<nat>, t: nat)
    requires |trace| == 1 && t <= |posted|
    ensures Forwarded(trace, port, mem, table, []) && Part(posted, t, t) == [] && GivenBack([]) == []
  {
  }

  lemma GivenBackStep(heads: seq<nat>, head: nat)
    ensures GivenBack(heads + [head]) == GivenBack(heads) + [Used(head, 0)]
  {
  }

  ghost function GivenBack(heads: seq<nat>): seq<Used> { seq(|heads|, i requires 0 <= i < |heads| => Used(heads[i], 0)) }

  lemma QueueBounds(q: Virtqueue)
    requires q.Valid()
    ensures q.taken <= |q.posted|
  {
  }

  /** `inject_rx`: header and frame go to the writable buffers of the next chain if they hold both.
      A chain whose head lies outside the table is taken but not given back. */
  method InjectRx(q: Virtqueue, mem: array<Byte>, frame: Frame) returns (ok: bool)
    requires q.Valid() && InMemory(q.table, mem.Length)
    modifies q, mem
    ensures q.Valid() && q.posted == old(q.posted) && q.table == old(q.table) && q.ready == old(q.ready)
    ensures q.taken == old(q.taken) + if old(HasNext(q)) then 1 else 0
    ensures ok <==> old(HasNext(q)) && old(NextChain(q)) != [] && TotalLen(Writable(old(NextChain(q)))) >= HDR_SIZE + |frame|
    ensures !ok ==> mem[..] == old(mem[..])
    ensures ok ==> var w := Writable(old(NextChain(q)));
                   && InMemory(w, mem.Length) && |Bytes(mem[..], w)| >= HDR_SIZE + |frame|
                   && (AllApart(w) ==> Bytes(mem[..], w)[..HDR_SIZE + |frame|] == Header() + frame)
                   && SameOutside(old(mem[..]), mem[..], w)
    ensures q.returned == old(q.returned) + if old(HasNext(q)) && old(NextChain(q)) != []
                                            then [Used(old(NextHead(q)), if ok then HDR_SIZE + |frame| else 0)] else []
  {
    hide Virtqueue.Valid, ChainFrom, Writable, Bytes, Header, AllApart, SameOutside, TotalLen;
    var r := NextOf(q);
    if r.None? || |r.value.descs| == 0 { return false; }
    ChainInMemory(q.table, r.value.head, MAX_CHAIN, mem.Length);
    WritableInMemory(r.value.descs, mem.Length);
    var len;
    ok, len := Scatter(mem, r.value.descs, frame);
    BytesLength(mem[..], Writable(r.value.descs));
    q.PutUsed(r.value.head, len);
  }

  ghost function ChainAt(table: seq<Desc>, head: nat): seq<Desc> { ChainFrom(table, head, MAX_CHAIN) }

  /** Header and frame fit the writable buffers of a chain. */
  predicate Room(chain: seq<Desc>, frame: Frame) { chain != [] && TotalLen(Writable(chain)) >= HDR_SIZE + |frame| }

  /** They are there. */
  ghost predicate Arrived(mem: seq<Byte>, chain: seq<Desc>, frame: Frame)
  {
    var w := Writable(chain);
    InMemory(w, |mem|) && HDR_SIZE + |frame| <= |Bytes(mem, w)| && Bytes(mem, w)[..HDR_SIZE + |frame|] == Header() + frame
  }

  ghost predicate BuffersApart(c: seq<Desc>, d: seq<Desc>) { forall x <- Writable(c), y <- Writable(d) :: Apart(x, y) }

  /** No two writable buffers of the chains overlap. */
  ghost predicate ChainsApart(table: seq<Desc>, heads: seq<nat>)
  {
    && (forall h <- heads :: AllApart(Writable(ChainAt(table, h))))
    && (forall i, j :: 0 <= i < j < |heads| ==> BuffersApart(ChainAt(table, heads[i]), ChainAt(table, heads[j])))
  }

  /** Each frame for which the chain had room is in it. */
  ghost predicate Landed(mem: seq<Byte>, table: seq<Desc>, heads: seq<nat>, frames: seq<Frame>)
  {
    && |heads| == |frames|
    && (ChainsApart(table, heads) ==>
          forall k :: 0 <= k < |heads| && Room(ChainAt(table, heads[k]), frames[k]) ==> Arrived(mem, ChainAt(table, heads[k]), frames[k]))
  }

  /** What goes to the used ring for each frame. */
  ghost function Results(table: seq<Desc>, heads: seq<nat>, frames: seq<Frame>): seq<Used>
    requires |heads| == |frames|
  {
    if heads == [] then []
    else Results(table, heads[..|heads| - 1], frames[..|heads| - 1]) + ResultOf(table, heads[|heads| - 1], frames[|heads| - 1])
  }

  ghost function ResultOf(table: seq<Desc>, head: nat, frame: Frame): seq<Used>
  {
    var chain := ChainAt(table, head);
    if chain == [] then [] else [Used(head, if Room(chain, frame) then HDR_SIZE + |frame| else 0)]
  }

  lemma {:induction false} ApartBytes(mem: seq<Byte>, mem': seq<Byte>, w: seq<Desc>, descs: seq<Desc>)
    requires InMemory(descs, |mem|) && SameOutside(mem, mem', w) && forall x <- descs, y <- w :: Apart(x, y)
    ensures Bytes(mem', descs) == Bytes(mem, descs)
  {
    if descs != [] {
      var front, d := descs[..|descs| - 1], descs[|descs| - 1];
      assert d in descs;
      forall a | d.addr <= a < d.addr + d.len ensures mem'[a] == mem[a] {
        forall y <- w ensures !(y.addr <= a < y.addr + y.len) { assert Apart(d, y); }
      }
      assert Buffer(mem', d) == Buffer(mem, d);
      ApartBytes(mem, mem', w, front);
    }
  }

  /** A frame that lands in one chain leaves those in other chains alone. */
  lemma LandedStep(mem: seq<Byte>, mem': seq<Byte>, table: seq<Desc>, heads: seq<nat>, frames: seq<Frame>, head: nat, frame: Frame)
    requires Landed(mem, table, heads, frames) && InMemory(table, |mem|) && |mem'| == |mem|
    requires var w := Writable(ChainAt(table, head));
             if Room(ChainAt(table, head), frame) then SameOutside(mem, mem', w) && (AllApart(w) ==> Arrived(mem', ChainAt(table, head), frame)) else mem' == mem
    ensures Landed(mem', table, heads + [head], frames + [frame])
  {
    hide ChainFrom, Writable, Bytes, Header, AllApart, SameOutside, TotalLen, Room;
    var heads', frames' := heads + [head], frames + [frame];
    if ChainsApart(table, heads') {
      assert heads'[|heads|] in heads';
      forall h <- heads ensures h in heads' {}
      forall i, j | 0 <= i < j < |heads| ensures BuffersApart(ChainAt(table, heads[i]), ChainAt(table, heads[j])) {
        assert BuffersApart(ChainAt(table, heads'[i]), ChainAt(table, heads'[j]));
      }
      forall k | 0 <= k < |heads| && Room(ChainAt(table, heads[k]), frames[k]) ensures Arrived(mem', ChainAt(table, heads[k]), frames[k]) {
        assert BuffersApart(ChainAt(table, heads'[k]), ChainAt(table, heads'[|heads|]));
        if Room(ChainAt(table, head), frame) { ApartBytes(mem, mem', Writable(ChainAt(table, head)), Writable(ChainAt(table, heads[k]))); }
      }
    }
  }

  /** One frame of `drain_net_rx`, after the frames that landed in the chains `heads`. */
  method DrainOne(q: Virtqueue, mem: array<Byte>, frame: Frame, ghost heads: seq<nat>, ghost frames: seq<Frame>)
    requires q.Valid() && InMemory(q.table, mem.Length) && Landed(mem[..], q.table, heads, frames)
    modifies q, mem
    ensures q.Valid() && q.posted == old(q.posted) && q.table == old(q.table) && q.ready == old(q.ready)
    ensures q.taken == old(q.taken) + if old(HasNext(q)) then 1 else 0
    ensures if old(HasNext(q))
            then Landed(mem[..], q.table, heads + [old(NextHead(q))], frames + [frame]) && q.returned == old(q.returned) + ResultOf(q.table, old(NextHead(q)), frame)
            else Landed(mem[..], q.table, heads, frames) && q.returned == old(q.returned)
  {
    hide Virtqueue.Valid, ChainFrom, Writable, Bytes, Header, AllApart, SameOutside, TotalLen, Landed;
    ghost var has, head := HasNext(q), if HasNext(q) then NextHead(q) else 0;
    var _ := InjectRx(q, mem, frame);
    if has { LandedStep(old(mem[..]), mem[..], q.table, heads, frames, head, frame); }
  }

  /** A part of a sequence. */
  ghost function Part<T>(s: seq<T>, i: nat, j: nat): (r: seq<T>)
    requires i <= j <= |s|
    ensures |r| == j - i
  {
    s[i..j]
  }

  /** `drain_net_rx`: the waiting frames go to the next receive chains, one each and in order, until
      either runs out. */
  method DrainNetRx(ring: NetRxRing, q: Virtqueue, mem: array<Byte>)
    requires ring.Valid() && q.Valid() && InMemory(q.table, mem.Length)
    modifies ring, q, mem
    ensures ring.Valid() && q.Valid() && ring.Contents() == []
    ensures q.posted == old(q.posted) && q.table == old(q.table) && old(q.taken) <= q.taken <= |q.posted|
    ensures q.taken - old(q.taken) == if old(q.ready) then Min(|q.posted| - old(q.taken), |old(ring.Contents())|) else 0
    ensures var heads, frames := Part(q.posted, old(q.taken), q.taken), Part(old(ring.Contents()), 0, q.taken - old(q.taken));
            Landed(mem[..], q.table, heads, frames) && q.returned == old(q.returned) + Results(q.table, heads, frames)
  {
    hide Virtqueue.Valid, NetRxRing.Valid, ChainFrom, Landed, Results, ResultOf, InMemory, Part, Waiting;
    ghost var t0, all, n := q.taken, ring.Contents(), 0;
    QueueBounds(q);
    NothingYet(mem[..], q.table, q.posted, t0, all);
    var frame := ring.Take();
    TookFirst(all, frame, ring.Contents());
    while frame.Some?
      invariant ring.Valid() && q.Valid() && InMemory(q.table, mem.Length)
      invariant q.posted == old(q.posted) && q.table == old(q.table) && q.ready == old(q.ready)
      invariant n <= |all| && Part(all, n, |all|) == Waiting(frame, ring.Contents()) && (frame.None? ==> n == |all| && ring.Contents() == [])
      invariant q.taken == t0 + (if q.ready then Min(|q.posted| - t0, n) else 0)
      invariant Landed(mem[..], q.table, Part(q.posted, t0, q.taken), Part(all, 0, q.taken - t0))
      invariant q.returned == old(q.returned) + Results(q.table, Part(q.posted, t0, q.taken), Part(all, 0, q.taken - t0))
      decreases |ring.Contents()|, frame.Some?
    {
      ghost var has, t := HasNext(q), q.taken;
      RestStep(all, n, frame.value, ring.Contents());
      DrainOne(q, mem, frame.value, Part(q.posted, t0, t), Part(all, 0, t - t0));
      if has {
        PartStep(q.posted, t0, t);
        PartStep(all, 0, t - t0);
        ResultsStep(q.table, Part(q.posted, t0, t), Part(all, 0, t - t0), q.posted[t], all[t - t0]);
      }
      n := n + 1;
      ghost var c := ring.Contents();
      frame := ring.Take();
      TookNext(all, n, c, frame, ring.Contents());
    }
  }

  lemma NothingYet(mem: seq<Byte>, table: seq<Desc>, posted: seq<nat>, t0: nat, all: seq<Frame>)
    requires t0 <= |posted|
    ensures Landed(mem, table, Part(posted, t0, t0), Part(all, 0, 0)) && Results(table, Part(posted, t0, t0), Part(all, 0, 0)) == []
  {
    assert Part(posted, t0, t0) == [] && Part(all, 0, 0) == [];
  }

  lemma TookFirst(all: seq<Frame>, frame: Option<Frame>, queue: seq<Frame>)
    requires match frame case None => all == [] && queue == [] case Some(f) => all == [f] + queue
    ensures Part(all, 0, |all|) == Waiting(frame, queue)
  {
  }

  lemma TookNext(all: seq<Frame>, n: nat, before: seq<Frame>, frame: Option<Frame>, queue: seq<Frame>)
    requires n <= |all| && Part(all, n, |all|) == before
    requires match frame case None => before == [] && queue == [] case Some(f) => before == [f] + queue
    ensures Part(all, n, |all|) == Waiting(frame, queue) && (frame.None? ==> n == |all|)
  {
    hide Part;
  }

  /** The frame in hand and those in the ring. */
  ghost function Waiting(frame: Option<Frame>, queue: seq<Frame>): seq<Frame> { if frame.Some? then [frame.value] + queue else queue }

  lemma RestStep(all: seq<Frame>, n: nat, frame: Frame, queue: seq<Frame>)
    requires n <= |all| && Part(all, n, |all|) == Waiting(Some(frame), queue)
    ensures n < |all| && all[n] == frame && Part(all, n + 1, |all|) == queue
  {
    assert n < |all|;
    assert all[n..][0] == frame && all[n..][1..] == queue;
  }

  lemma PartStep<T>(s: seq<T>, i: nat, j: nat)
    requires i <= j < |s|
    ensures Part(s, i, j + 1) == Part(s, i, j) + [s[j]]
  {
  }

  lemma LandedAt(mem: seq<Byte>, table: seq<Desc>, heads: seq<nat>, frames: seq<Frame>, k: nat)
    requires Landed(mem, table, heads, frames) && ChainsApart(table, heads) && k < |heads| && Room(ChainAt(table, heads[k]), frames[k])
    ensures Arrived(mem, ChainAt(table, heads[k]), frames[k])
  {
  }

  lemma ResultsStep(table: seq<Desc>, heads: seq<nat>, frames: seq<Frame>, head: nat, frame: Frame)
    requires |heads| == |frames|
    ensures Results(table, heads + [head], frames + [frame]) == Results(table, heads, frames) + ResultOf(table, head, frame)
  {
    assert (heads + [head])[..|heads|] == heads && (frames + [frame])[..|heads|] == frames;
  }

  /** Both MAC addresses of a frame lead to the other port. */
  ghost predicate Crosses(table: seq<MacEntry>, src: nat, frame: Frame)
  {
    |frame| >= 14 && (frame[0] % 2 == 1 || (frame[..6] != frame[6..12] && Lookup(table, frame[..6]) != Some(src)))
  }

  /** End to end: a frame of 14 to 1514 bytes in any transmit chain arrives, behind its header and
      after the frames that wait already, in the receiver's buffers. */
  method Transfer(txq: Virtqueue, txMem: seq<Byte>, sw: Switch, src: nat, rxq: Virtqueue, rxMem: array<Byte>)
    requires txq.Valid() && rxq.Valid() && txq != rxq && sw.Valid() && src < MAX_PORTS
    requires InMemory(txq.table, |txMem|) && InMemory(rxq.table, rxMem.Length)
    requires HasNext(txq) && InMemory(NextChain(txq), |txMem|)
    requires var p, k := Payload(Bytes(txMem, NextChain(txq))), |sw.Queues()[1 - src]|;
             && 14 <= |p| <= MAX_FRAME_SIZE && Crosses(sw.table[..], src, p) && k < RING_SIZE - 1
             && rxq.ready && rxq.taken + k < |rxq.posted|
             && ChainsApart(rxq.table, Part(rxq.posted, rxq.taken, rxq.taken + k + 1))
             && Room(ChainAt(rxq.table, rxq.posted[rxq.taken + k]), p)
    modifies txq, rxq, rxMem, sw`macCount, sw.table, sw.ports, set r <- sw.ports :: r.slots
    ensures var p := Payload(Bytes(txMem, old(NextChain(txq))));
            var head := old(rxq.posted[rxq.taken + |sw.Queues()[1 - src]|]);
            && Arrived(rxMem[..], ChainAt(old(rxq.table), head), p)
            && |rxq.returned| > 0 && rxq.returned[|rxq.returned| - 1] == Used(head, HDR_SIZE + |p|)
            && txq.returned == old(txq.returned) + [Used(old(NextHead(txq)), 0)]
  {
    hide Virtqueue.Valid, NetRxRing.Valid, ChainFrom, Writable, Bytes, Header, AllApart, SameOutside, TotalLen, Payload, Gathered, Lookup, Delivered, ChainsApart, Room, Results, Landed, Arrived;
    ghost var p, waiting, heads := Payload(Bytes(txMem, NextChain(txq))), sw.Queues()[1 - src], Part(rxq.posted, rxq.taken, rxq.taken + |sw.Queues()[1 - src]| + 1);
    GatheredExactly(txMem, NextChain(txq));
    var sent := TransmitOne(txq, txMem, sw, src);
    OtherTarget(old(sw.table[..]), sw, src, p);
    DeliveredOther(old(sw.Queues()), Targets(sw.table[..], src, p[..6]), p, 1 - src);
    assert sw.ports[1 - src] in sw.ports;
    assert sw.ports[1 - src].Contents() == waiting + [p];
    DrainNetRx(sw.ports[1 - src], rxq, rxMem);
    LastLanded(rxMem[..], rxq.table, heads, waiting, p, old(rxq.returned), rxq.returned);
  }

  /** The last frame and what was reported for it. */
  lemma LastLanded(mem: seq<Byte>, table: seq<Desc>, heads: seq<nat>, waiting: seq<Frame>, p: Frame, before: seq<Used>, after: seq<Used>)
    requires |heads| == |waiting| + 1 && ChainsApart(table, heads) && Room(ChainAt(table, heads[|waiting|]), p)
    requires Landed(mem, table, heads, Part(waiting + [p], 0, |heads|))
    requires after == before + Results(table, heads, Part(waiting + [p], 0, |heads|))
    ensures Arrived(mem, ChainAt(table, heads[|waiting|]), p)
    ensures |after| > 0 && after[|after| - 1] == Used(heads[|waiting|], HDR_SIZE + |p|)
  {
    hide ChainFrom, Writable, Bytes, Header, TotalLen, ChainsApart, Results, Landed, Arrived;
    assert Part(waiting + [p], 0, |heads|) == waiting + [p];
    assert heads == heads[..|waiting|] + [heads[|waiting|]];
    LandedAt(mem, table, heads, waiting + [p], |waiting|);
    ResultsStep(table, heads[..|waiting|], waiting, heads[|waiting|], p);
  }

  lemma OtherTarget(before: seq<MacEntry>, sw: Switch, src: nat, frame: Frame)
    requires sw.TableOk() && src < MAX_PORTS && Crosses(before, src, frame) && Learned(before, sw.table[..], frame[6..12], src)
    ensures 1 - src in Targets(sw.table[..], src, frame[..6])
  {
    hide Lookup;
    KnownPort(sw, frame[..6]);
  }

  lemma DeliveredOther(queues: seq<seq<Frame>>, targets: set<nat>, frame: Frame, p: nat)
    requires p < |queues| && p in targets && |queues[p]| < RING_SIZE - 1 && 0 < |frame| <= MAX_FRAME_SIZE
    ensures Delivered(queues, targets, frame)[p] == queues[p] + [frame]
  {
  }
}
