/** Byte buffers written in place. */
module ByteBuffer {
  import opened Modular

  type Byte = x: int | 0 <= x < 256

  /** Memory with `data` written at `at`. */
  function Patched(mem: seq<Byte>, at: nat, data: seq<Byte>): (r: seq<Byte>)
    requires at + |data| <= |mem|
    ensures |r| == |mem|
  {
    mem[..at] + data + mem[at + |data|..]
  }

  lemma PatchedTwice(mem: seq<Byte>, at: nat, x: seq<Byte>, y: seq<Byte>)
    requires at + |x| + |y| <= |mem|
    ensures Patched(Patched(mem, at, x), at + |x|, y) == Patched(mem, at, x + y)
    ensures Patched(mem, at, []) == mem
  {
  }

  /** A copy into memory. */
  method CopyIn(mem: array<Byte>, at: nat, data: seq<Byte>)
    requires at + |data| <= mem.Length
    modifies mem
    ensures mem[..] == Patched(old(mem[..]), at, data)
  {
    for k := 0 to |data|
      invariant forall i :: 0 <= i < mem.Length ==> mem[i] == if at <= i < at + k then data[i - at] else old(mem[i])
    {
      mem[at + k] := data[k];
    }
  }

  // ---- little-endian numbers ----

  function Pow256(n: nat): (r: nat)
    ensures r > 0
  {
    if n == 0 then 1 else 256 * Pow256(n - 1)
  }

  lemma Powers()
    ensures Pow256(2) == 0x1_0000 && Pow256(4) == 0x1_0000_0000 && Pow256(8) == 0x1_0000_0000_0000_0000
  {
    assert Pow256(4) == 256 * 256 * Pow256(2);
    assert Pow256(6) == 256 * 256 * Pow256(4);
    assert Pow256(8) == 256 * 256 * Pow256(6);
  }

  function Le(bytes: seq<Byte>): nat { if bytes == [] then 0 else bytes[0] + 256 * Le(bytes[1..]) }

  function LeBytes(x: nat, n: nat): (r: seq<Byte>)
    ensures |r| == n
  {
    if n == 0 then [] else [x % 256] + LeBytes(x / 256, n - 1)
  }

  lemma {:induction false} LeRoundTrip(x: nat, n: nat)
    requires x < Pow256(n)
    ensures Le(LeBytes(x, n)) == x
  {
    if n > 0 {
      LeRoundTrip(x / 256, n - 1);
      assert LeBytes(x, n)[1..] == LeBytes(x / 256, n - 1);
    }
  }

  /** Byte `i` is the digit of weight 256^i. */
  lemma {:induction false} LeDigit(x: nat, n: nat, i: nat)
    requires i < n
    ensures LeBytes(x, n)[i] == x / Pow256(i) % 256
  {
    if i > 0 {
      LeDigit(x / 256, n - 1, i - 1);
      DivTwice(x, Pow256(i - 1));
    }
  }

  lemma DivTwice(x: nat, p: nat)
    requires p > 0
    ensures x / 256 / p == x / (256 * p)
  {
    var q, r := x / 256 / p, x / 256 % p;
    assert x / 256 == q * p + r;
    assert x == q * (256 * p) + (256 * r + x % 256);
    IsDiv(x, 256 * p, q, 256 * r + x % 256);
  }

  lemma {:induction false} LeZeros(bytes: seq<Byte>)
    requires forall i :: 0 <= i < |bytes| ==> bytes[i] == 0
    ensures Le(bytes) == 0
  {
    if bytes != [] { LeZeros(bytes[1..]); }
  }

  /** The number in `n` bytes at an offset. */
  function At(buf: seq<Byte>, off: nat, n: nat): nat
    requires off + n <= |buf|
  {
    Le(buf[off..off + n])
  }

  lemma PatchedAt(buf: seq<Byte>, at: nat, data: seq<Byte>)
    requires at + |data| <= |buf|
    ensures At(Patched(buf, at, data), at, |data|) == Le(data)
  {
    hide Le;
    assert Patched(buf, at, data)[at..at + |data|] == data;
  }

  lemma PatchedElsewhere(buf: seq<Byte>, at: nat, data: seq<Byte>, off: nat, n: nat)
    requires at + |data| <= |buf| && off + n <= |buf| && (off + n <= at || at + |data| <= off)
    ensures At(Patched(buf, at, data), off, n) == At(buf, off, n)
  {
    hide Le;
    var after := Patched(buf, at, data);
    forall i | off <= i < off + n ensures after[i] == buf[i] {}
    assert after[off..off + n] == buf[off..off + n];
  }

  /** Writes a number; all other fields stay. */
  method WriteLe(buf: array<Byte>, at: nat, n: nat, x: nat)
    requires at + n <= buf.Length && x < Pow256(n)
    modifies buf
    ensures At(buf[..], at, n) == x
    ensures forall off: nat, k: nat :: off + k <= at || (at + n <= off && off + k <= buf.Length) ==> At(buf[..], off, k) == At(old(buf[..]), off, k)
  {
    hide At, Le, Patched;
    CopyIn(buf, at, LeBytes(x, n));
    LeRoundTrip(x, n);
    PatchedAt(old(buf[..]), at, LeBytes(x, n));
    forall off: nat, k: nat | off + k <= at || (at + n <= off && off + k <= buf.Length) ensures At(buf[..], off, k) == At(old(buf[..]), off, k) {
      PatchedElsewhere(old(buf[..]), at, LeBytes(x, n), off, k);
    }
  }
}
