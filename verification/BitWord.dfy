/** Machine words as sequences of bits, lowest bit first. */
module BitWord {
  import opened Modular

  type Bits = seq<bool>

  function Pow2(n: nat): (r: nat)
    ensures r > 0
  {
    if n == 0 then 1 else 2 * Pow2(n - 1)
  }

  /** The number that bits stand for. */
  function Val(b: Bits): (r: nat)
    ensures r < Pow2(|b|)
  {
    if b == [] then 0 else (if b[0] then 1 else 0) + 2 * Val(b[1..])
  }

  /** The lowest `n` bits of a number. */
  function ToBits(x: nat, n: nat): (b: Bits)
    ensures |b| == n
  {
    if n == 0 then [] else [x % 2 == 1] + ToBits(x / 2, n - 1)
  }

  function Zip(a: Bits, b: Bits, f: (bool, bool) -> bool): (r: Bits)
    requires |a| == |b|
    ensures |r| == |a|
  {
    seq(|a|, i requires 0 <= i < |a| => f(a[i], b[i]))
  }

  function And(a: Bits, b: Bits): Bits
    requires |a| == |b|
  {
    Zip(a, b, (x, y) => x && y)
  }

  function Or(a: Bits, b: Bits): Bits
    requires |a| == |b|
  {
    Zip(a, b, (x, y) => x || y)
  }

  function Not(a: Bits): (r: Bits)
    ensures |r| == |a|
  {
    seq(|a|, i requires 0 <= i < |a| => !a[i])
  }

  function Shl(a: Bits, k: nat): (r: Bits)
    ensures |r| == |a|
  {
    seq(|a|, i requires 0 <= i < |a| => i >= k && a[i - k])
  }

  lemma {:induction false} ValOfBits(x: nat, n: nat)
    ensures Val(ToBits(x, n)) == x % Pow2(n)
  {
    if n > 0 {
      ValOfBits(x / 2, n - 1);
      assert ToBits(x, n)[1..] == ToBits(x / 2, n - 1);
      HalfMod(x, Pow2(n - 1));
    }
  }

  lemma HalfMod(x: nat, m: nat)
    requires m > 0
    ensures x % (2 * m) == x % 2 + 2 * (x / 2 % m)
  {
    var q, r := x / 2 / m, x / 2 % m;
    assert x / 2 == q * m + r;
    assert x == q * (2 * m) + (x % 2 + 2 * r);
    IsMod(x, q, x % 2 + 2 * r, 2 * m);
  }

  lemma {:induction false} BitsOfVal(b: Bits)
    ensures ToBits(Val(b), |b|) == b
  {
    if b != [] { BitsOfVal(b[1..]); }
  }

  /** The lowest bits of the lowest bits. */
  lemma {:induction false} Lowest(x: nat, n: nat, m: nat)
    requires m <= n
    ensures ToBits(x, n)[..m] == ToBits(x, m)
  {
    if m > 0 {
      Lowest(x / 2, n - 1, m - 1);
      assert ToBits(x, n)[..m] == [x % 2 == 1] + ToBits(x / 2, n - 1)[..m - 1];
    }
  }

  lemma {:induction false} ZeroBits(n: nat)
    ensures forall i :: 0 <= i < n ==> !ToBits(0, n)[i]
  {
    if n > 0 { ZeroBits(n - 1); }
  }

  lemma SmallMod(x: nat, m: nat)
    requires x < m
    ensures x % m == x
  {
  }

  lemma OrNone(a: Bits, z: Bits)
    requires |a| == |z| && forall i :: 0 <= i < |z| ==> !z[i]
    ensures Or(a, z) == a && Or(z, a) == a
  {
  }

  lemma OrWithZero(x: nat, n: nat)
    requires x < Pow2(n)
    ensures Val(Or(ToBits(x, n), ToBits(0, n))) == x && Val(Or(ToBits(0, n), ToBits(x, n))) == x
  {
    hide Pow2, ToBits, Val, Or;
    ValOfBits(x, n);
    SmallMod(x, Pow2(n));
    ZeroBits(n);
    OrNone(ToBits(x, n), ToBits(0, n));
  }

  lemma {:induction false} NoBits(b: Bits)
    requires forall i :: 0 <= i < |b| ==> !b[i]
    ensures Val(b) == 0
  {
    if b != [] { NoBits(b[1..]); }
  }

  lemma {:induction false} ValSplit(b: Bits, k: nat)
    requires k <= |b|
    ensures Val(b) == Val(b[..k]) + Pow2(k) * Val(b[k..])
  {
    if k > 0 {
      ValSplit(b[1..], k - 1);
      assert b[1..][..k - 1] == b[..k][1..] && b[1..][k - 1..] == b[k..];
      Twice(Pow2(k - 1), Val(b[k..]));
    }
  }

  lemma Twice(p: nat, v: nat)
    ensures 2 * p * v == 2 * (p * v)
  {
  }

  /** Bits that do not meet add up. */
  lemma {:induction false} OrIsSum(a: Bits, b: Bits)
    requires |a| == |b| && forall i :: 0 <= i < |a| ==> !(a[i] && b[i])
    ensures Val(Or(a, b)) == Val(a) + Val(b)
  {
    if a != [] {
      OrIsSum(a[1..], b[1..]);
      assert Or(a, b)[1..] == Or(a[1..], b[1..]);
    }
  }
}
