/** The data path of virtio-net (section 5.1.6 of Virtio 1.2): gathering a frame from a transmit chain
(src/devices/virtio/net.rs:46-97) and scattering it over a receive chain
(src/devices/virtio/mmio.rs:326-403). */
module Net {
  import opened ByteBuffer
  import opened Sizes
  import opened Virtqueue

  const HDR_SIZE := 12
  const MAX_FRAME_SIZE := 1514

  /** No flags, no segmentation, no checksum, and `num_buffers`, in the last two bytes, is 1. */
  function Header(): (h: seq<Byte>)
    ensures |h| == HDR_SIZE && (forall i :: 0 <= i < 10 ==> h[i] == 0) && At(h, 10, 2) == 1
  {
    var h: seq<Byte> := [0, 0, 0, 0, 0, 0, 0, 0, 0, 0, 1, 0];
    assert h[10..12] == [1, 0] && [1, 0][1..] == [0];
    h
  }

  /** The buffers lie in memory. */
  predicate InMemory(descs: seq<Desc>, size: nat) { forall d <- descs :: d.addr + d.len <= size }

  function Buffer(mem: seq<Byte>, d: Desc): seq<Byte>
    requires d.addr + d.len <= |mem|
  {
    mem[d.addr..d.addr + d.len]
  }

  /** The bytes of a chain, read in order. */
  function Bytes(mem: seq<Byte>, descs: seq<Desc>): seq<Byte>
    requires InMemory(descs, |mem|)
  {
    if descs == [] then [] else Bytes(mem, descs[..|descs| - 1]) + Buffer(mem, descs[|descs| - 1])
  }

  lemma BytesStep(mem: seq<Byte>, descs: seq<Desc>, i: nat)
    requires InMemory(descs, |mem|) && i < |descs|
    ensures InMemory(descs[..i + 1], |mem|) && InMemory(descs[..i], |mem|) && descs[i].addr + descs[i].len <= |mem|
    ensures Bytes(mem, descs[..i + 1]) == Bytes(mem, descs[..i]) + Buffer(mem, descs[i])
  {
    assert descs[i] in descs;
    assert descs[..i + 1][..i] == descs[..i];
  }

  // ---- transmit ----

  /** What follows the header. */
  function Payload(bytes: seq<Byte>): seq<Byte> { if |bytes| <= HDR_SIZE then [] else bytes[HDR_SIZE..] }

  /** One descriptor of the transmit chain: the bytes that the code takes from it. */
  function Chunk(buf: seq<Byte>, total: nat): seq<Byte>
  {
    if total < HDR_SIZE then buf[Min(HDR_SIZE - total, |buf|)..] else buf
  }

  lemma PayloadStep(bytes: seq<Byte>, buf: seq<Byte>)
    ensures Payload(bytes + buf) == Payload(bytes) + Chunk(buf, |bytes|)
  {
  }

  /** The frame that the code gathers: chunks that no longer fit are left out. */
  function Gathered(mem: seq<Byte>, chain: seq<Desc>): (f: seq<Byte>)
    requires InMemory(chain, |mem|)
    ensures |f| <= MAX_FRAME_SIZE
  {
    if chain == [] then []
    else
      var front, d := chain[..|chain| - 1], chain[|chain| - 1];
      var f, c := Gathered(mem, front), Chunk(Buffer(mem, d), |Bytes(mem, front)|);
      if |f| + |c| <= MAX_FRAME_SIZE then f + c else f
  }

  /** It is the payload exactly when that fits a frame. */
  lemma {:induction false} GatheredExactly(mem: seq<Byte>, chain: seq<Desc>)
    requires InMemory(chain, |mem|)
    ensures Gathered(mem, chain) == Payload(Bytes(mem, chain)) <==> |Payload(Bytes(mem, chain))| <= MAX_FRAME_SIZE
  {
    if chain != [] {
      var front, d := chain[..|chain| - 1], chain[|chain| - 1];
      GatheredExactly(mem, front);
      PayloadStep(Bytes(mem, front), Buffer(mem, d));
    }
  }

  lemma GatheredStep(mem: seq<Byte>, chain: seq<Desc>, i: nat)
    requires InMemory(chain, |mem|) && i < |chain|
    ensures InMemory(chain[..i], |mem|) && InMemory(chain[..i + 1], |mem|) && chain[i].addr + chain[i].len <= |mem|
    ensures Gathered(mem, chain[..i + 1]) ==
            var f, c := Gathered(mem, chain[..i]), Chunk(Buffer(mem, chain[i]), |Bytes(mem, chain[..i])|);
            if |f| + |c| <= MAX_FRAME_SIZE then f + c else f
  {
    assert chain[i] in chain;
    assert chain[..i + 1][..i] == chain[..i];
  }

  /** The gather loop of `process_tx`. */
  method GatherFrame(mem: seq<Byte>, chain: seq<Desc>) returns (frame: seq<Byte>)
    requires InMemory(chain, |mem|)
    ensures frame == Gathered(mem, chain)
  {
    hide Gathered, Bytes;
    var total := 0;
    frame := [];
    NothingGathered(mem);
    for i := 0 to |chain|
      invariant InMemory(chain[..i], |mem|) && total == |Bytes(mem, chain[..i])| && frame == Gathered(mem, chain[..i])
    {
      BytesStep(mem, chain, i);
      GatheredStep(mem, chain, i);
      var buf := Buffer(mem, chain[i]);
      if total < HDR_SIZE {
        var data := buf[Min(HDR_SIZE - total, |buf|)..];
        if |data| > 0 && |frame| + |data| <= MAX_FRAME_SIZE { frame := frame + data; }
      } else {
        if |frame| + |buf| <= MAX_FRAME_SIZE { frame := frame + buf; }
      }
      total := total + |buf|;
    }
    assert chain[..|chain|] == chain;
  }

  lemma NothingGathered(mem: seq<Byte>)
    ensures Gathered(mem, []) == [] && Bytes(mem, []) == []
  {
  }

  // ---- receive ----

  function Writable(chain: seq<Desc>): seq<Desc>
  {
    if chain == [] then []
    else Writable(chain[..|chain| - 1]) + if chain[|chain| - 1].write then [chain[|chain| - 1]] else []
  }

  /** Exactly the device-writable descriptors, in the order of the chain. */
  lemma {:induction false} WritableExactly(chain: seq<Desc>, k: nat)
    requires k < |chain|
    ensures forall d :: d in Writable(chain) <==> d in chain && d.write
    ensures Writable(chain[..k]) <= Writable(chain)
    ensures chain[k].write ==> |Writable(chain[..k])| < |Writable(chain)| && Writable(chain)[|Writable(chain[..k])|] == chain[k]
  {
    var n := |chain| - 1;
    var front := chain[..n];
    assert chain == front + [chain[n]];
    if k < n {
      assert front[..k] == chain[..k] && front[k] == chain[k];
      WritableExactly(front, k);
    } else if n > 0 {
      WritableExactly(front, 0);
    }
  }

  predicate Apart(d: Desc, e: Desc) { d.addr + d.len <= e.addr || e.addr + e.len <= d.addr }

  ghost predicate AllApart(descs: seq<Desc>) { forall i, j :: 0 <= i < j < |descs| ==> Apart(descs[i], descs[j]) }

  /** The memory outside the buffers. */
  ghost predicate SameOutside(mem: seq<Byte>, mem': seq<Byte>, descs: seq<Desc>)
  {
    && |mem'| == |mem|
    && forall a :: 0 <= a < |mem| && (forall d <- descs :: !(d.addr <= a < d.addr + d.len)) ==> mem'[a] == mem[a]
  }

  // A stretch of a message before, across and behind the boundary of its two parts

  lemma Within(h: seq<Byte>, f: seq<Byte>, i: nat, n: nat)
    requires i + n <= |h|
    ensures (h + f)[i..i + n] == h[i..i + n]
  {
  }

  lemma Across(h: seq<Byte>, f: seq<Byte>, i: nat, n: nat)
    requires i <= |h| <= i + n <= |h| + |f|
    ensures (h + f)[i..i + n] == h[i..|h|] + f[..i + n - |h|]
  {
  }

  lemma Behind(h: seq<Byte>, f: seq<Byte>, i: nat, n: nat)
    requires |h| <= i && i + n <= |h| + |f|
    ensures (h + f)[i..i + n] == f[i - |h|..i + n - |h|]
  {
  }

  /** One writable descriptor: the next bytes of header and frame. */
  method ScatterOne(mem: array<Byte>, d: Desc, frame: seq<Byte>, written: nat) returns (n: nat)
    requires d.addr + d.len <= mem.Length && written <= HDR_SIZE + |frame|
    modifies mem
    ensures n == Min(HDR_SIZE + |frame| - written, d.len)
    ensures mem[..] == Patched(old(mem[..]), d.addr, (Header() + frame)[written..written + n])
  {
    hide Header, Patched;
    n := Min(HDR_SIZE + |frame| - written, d.len);
    if written < HDR_SIZE {
      var hdrBytes := Min(HDR_SIZE - written, n);
      var first := Header()[written..written + hdrBytes];
      CopyIn(mem, d.addr, first);
      if n > hdrBytes {
        var second := frame[..n - hdrBytes];
        PatchedTwice(old(mem[..]), d.addr, first, second);
        CopyIn(mem, d.addr + hdrBytes, second);
        Across(Header(), frame, written, n);
      } else {
        Within(Header(), frame, written, n);
      }
    } else {
      var data := frame[written - HDR_SIZE..written - HDR_SIZE + n];
      CopyIn(mem, d.addr, data);
      Behind(Header(), frame, written, n);
    }
  }

  function TotalLen(descs: seq<Desc>): nat
  {
    if descs == [] then 0 else TotalLen(descs[..|descs| - 1]) + descs[|descs| - 1].len
  }

  lemma {:induction false} BytesLength(mem: seq<Byte>, descs: seq<Desc>)
    requires InMemory(descs, |mem|)
    ensures |Bytes(mem, descs)| == TotalLen(descs)
  {
    if descs != [] {
      assert descs[|descs| - 1] in descs;
      BytesLength(mem, descs[..|descs| - 1]);
    }
  }

  /** The writable capacity of the chain, as `inject_rx` adds it up. */
  method Capacity(chain: seq<Desc>) returns (cap: nat)
    ensures cap == TotalLen(Writable(chain))
  {
    hide Writable, TotalLen;
    cap := 0;
    NoneWritable();
    for i := 0 to |chain|
      invariant cap == TotalLen(Writable(chain[..i]))
    {
      WritableStep(chain, i);
      if chain[i].write {
        TotalStep(Writable(chain[..i]), chain[i]);
        cap := cap + chain[i].len;
      }
    }
    assert chain[..|chain|] == chain;
  }

  lemma TotalStep(descs: seq<Desc>, d: Desc)
    ensures TotalLen(descs + [d]) == TotalLen(descs) + d.len
  {
    assert (descs + [d])[..|descs|] == descs;
  }

  lemma WritableStep(chain: seq<Desc>, i: nat)
    requires i < |chain|
    ensures Writable(chain[..i + 1]) == if chain[i].write then Writable(chain[..i]) + [chain[i]] else Writable(chain[..i])
  {
    assert chain[..i + 1][..i] == chain[..i];
  }

  /** `inject_rx` after the chain was taken: either nothing is written and the chain goes back with
      length 0, or its writable buffers, read in order, hold the header and the frame, provided that
      they do not overlap. */
  method Scatter(mem: array<Byte>, chain: seq<Desc>, frame: seq<Byte>) returns (ok: bool, used: nat)
    requires InMemory(chain, mem.Length)
    modifies mem
    ensures InMemory(Writable(chain), mem.Length)
    ensures ok <==> |Bytes(mem[..], Writable(chain))| >= HDR_SIZE + |frame|
    ensures !ok ==> used == 0 && mem[..] == old(mem[..])
    ensures ok ==> used == HDR_SIZE + |frame| && (AllApart(Writable(chain)) ==> Bytes(mem[..], Writable(chain))[..used] == Header() + frame)
    ensures SameOutside(old(mem[..]), mem[..], Writable(chain))
  {
    hide Header, Patched, SameOutside, AllApart, Filled, Bytes, Writable, TotalLen;
    ghost var w := Writable(chain);
    ghost var msg := Header() + frame;
    var cap := Capacity(chain);
    WritableInMemory(chain, mem.Length);
    SameStart(mem[..], w);
    BytesLength(mem[..], w);
    if cap < HDR_SIZE + |frame| { return false, 0; }
    var written: nat := 0;
    NothingFilled(mem[..], msg);
    NoneWritable();
    assert chain[..0] == [];
    for i := 0 to |chain|
      invariant SameOutside(old(mem[..]), mem[..], w) && written == Min(TotalLen(Writable(chain[..i])), |msg|)
      invariant AllApart(w) ==> Filled(mem[..], Writable(chain[..i]), msg, written)
    {
      WritableStep(chain, i);
      if chain[i].write {
        WritablePrefix(chain, i + 1);
        ghost var before, descs := mem[..], Writable(chain[..i]);
        assert chain[i] in chain;
        assert w[..|descs| + 1] == descs + [chain[i]] && w[|descs|] == chain[i];
        var n := ScatterOne(mem, chain[i], frame, written);
        TotalStep(descs, chain[i]);
        if AllApart(w) { FilledStep(before, descs, chain[i], msg, written, w); }
        OutsideStep(old(mem[..]), before, w, chain[i], msg[written..written + n]);
        written := written + n;
      }
    }
    assert chain[..|chain|] == chain;
    BytesLength(mem[..], w);
    if AllApart(w) { FilledWhole(mem[..], w, msg, written); }
    return true, written;
  }

  lemma NoneWritable()
    ensures Writable([]) == [] && TotalLen([]) == 0
  {
  }

  lemma {:induction false} WritableInMemory(chain: seq<Desc>, size: nat)
    requires InMemory(chain, size)
    ensures InMemory(Writable(chain), size)
  {
    if chain != [] {
      assert chain[|chain| - 1] in chain;
      WritableInMemory(chain[..|chain| - 1], size);
    }
  }

  /** The first `written` bytes of the message are in the buffers, which are full unless it is all
      there. */
  ghost predicate Filled(mem: seq<Byte>, descs: seq<Desc>, msg: seq<Byte>, written: nat)
  {
    && InMemory(descs, |mem|) && written == Min(|Bytes(mem, descs)|, |msg|)
    && Bytes(mem, descs)[..written] == msg[..written]
  }

  lemma NothingFilled(mem: seq<Byte>, msg: seq<Byte>)
    ensures Filled(mem, [], msg, 0)
  {
  }

  lemma FilledWhole(mem: seq<Byte>, descs: seq<Desc>, msg: seq<Byte>, written: nat)
    requires Filled(mem, descs, msg, written) && |Bytes(mem, descs)| >= |msg|
    ensures written == |msg| && Bytes(mem, descs)[..written] == msg
  {
    assert msg[..|msg|] == msg;
  }

  lemma SameStart(mem: seq<Byte>, descs: seq<Desc>)
    ensures SameOutside(mem, mem, descs)
  {
  }

  /** Writing apart from the buffers does not change them. */
  lemma {:induction false} ApartKeeps(mem: seq<Byte>, descs: seq<Desc>, at: nat, data: seq<Byte>)
    requires InMemory(descs, |mem|) && at + |data| <= |mem|
    requires forall d <- descs :: d.addr + d.len <= at || at + |data| <= d.addr
    ensures Bytes(Patched(mem, at, data), descs) == Bytes(mem, descs)
  {
    if descs != [] {
      var d := descs[|descs| - 1];
      assert d in descs;
      assert Buffer(Patched(mem, at, data), d) == Buffer(mem, d);
      ApartKeeps(mem, descs[..|descs| - 1], at, data);
    }
  }

  lemma FilledStep(mem: seq<Byte>, descs: seq<Desc>, d: Desc, msg: seq<Byte>, written: nat, w: seq<Desc>)
    requires Filled(mem, descs, msg, written) && d.addr + d.len <= |mem|
    requires AllApart(w) && |descs| < |w| && w[..|descs|] == descs && w[|descs|] == d
    ensures var n := Min(|msg| - written, d.len);
            Filled(Patched(mem, d.addr, msg[written..written + n]), descs + [d], msg, written + n)
  {
    var n := Min(|msg| - written, d.len);
    var mem' := Patched(mem, d.addr, msg[written..written + n]);
    forall e <- descs ensures Apart(e, d) {
      var i :| 0 <= i < |descs| && descs[i] == e;
      assert w[i] == e;
    }
    ApartKeeps(mem, descs, d.addr, msg[written..written + n]);
    PatchedRead(mem, d.addr, msg[written..written + n], d.len);
    FilledOne(mem, descs, d, msg, written, mem');
  }

  lemma FilledOne(mem: seq<Byte>, descs: seq<Desc>, d: Desc, msg: seq<Byte>, written: nat, mem': seq<Byte>)
    requires Filled(mem, descs, msg, written) && d.addr + d.len <= |mem| == |mem'|
    requires Bytes(mem', descs) == Bytes(mem, descs)
    requires var n := Min(|msg| - written, d.len); Buffer(mem', d)[..n] == msg[written..written + n]
    ensures Filled(mem', descs + [d], msg, written + Min(|msg| - written, d.len))
  {
    hide Bytes;
    BytesJoin(mem', descs, d);
    Join(Bytes(mem', descs), Buffer(mem', d), msg, written);
  }

  lemma PatchedRead(mem: seq<Byte>, at: nat, data: seq<Byte>, len: nat)
    requires |data| <= len && at + len <= |mem|
    ensures Patched(mem, at, data)[at..at + len][..|data|] == data
  {
    var r := Patched(mem, at, data)[at..at + len][..|data|];
    assert |r| == |data| && forall i :: 0 <= i < |data| ==> r[i] == Patched(mem, at, data)[at + i] == data[i];
  }

  lemma BytesJoin(mem: seq<Byte>, descs: seq<Desc>, d: Desc)
    requires InMemory(descs, |mem|) && d.addr + d.len <= |mem|
    ensures InMemory(descs + [d], |mem|) && Bytes(mem, descs + [d]) == Bytes(mem, descs) + Buffer(mem, d)
  {
    assert (descs + [d])[..|descs|] == descs;
  }

  lemma Join(a: seq<Byte>, b: seq<Byte>, msg: seq<Byte>, written: nat)
    requires written == Min(|a|, |msg|) && a[..written] == msg[..written]
    requires var n := Min(|msg| - written, |b|); b[..n] == msg[written..written + n]
    ensures var n := Min(|msg| - written, |b|);
            written + n == Min(|a + b|, |msg|) && (a + b)[..written + n] == msg[..written + n]
  {
    var n := Min(|msg| - written, |b|);
    if written == |msg| {
      assert (a + b)[..written] == a[..written];
    } else {
      assert (a + b)[..written + n] == a + b[..n];
      assert msg[..written + n] == msg[..written] + msg[written..written + n];
    }
  }

  lemma OutsideStep(mem0: seq<Byte>, mem: seq<Byte>, w: seq<Desc>, d: Desc, data: seq<Byte>)
    requires SameOutside(mem0, mem, w) && d in w && d.addr + d.len <= |mem| && |data| <= d.len
    ensures SameOutside(mem0, Patched(mem, d.addr, data), w)
  {
  }

  lemma {:induction false} WritablePrefix(chain: seq<Desc>, i: nat)
    requires i <= |chain|
    ensures Writable(chain[..i]) <= Writable(chain)
  {
    if i < |chain| {
      var front := chain[..|chain| - 1];
      assert front[..i] == chain[..i];
      WritablePrefix(front, i);
    } else {
      assert chain[..i] == chain;
    }
  }
}
