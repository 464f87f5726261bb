/** Arithmetic of indices that wrap around. */
module Modular {
  function Mod(a: nat, n: nat): (r: nat)
    requires n > 0
    ensures r < n
  {
    a % n
  }

  lemma Between(d: int, q: int, n: nat)
    requires d == q * n && d < n && 0 < d + n
    ensures d == 0
  {
  }

  /** Less than `n` apart, only equal numbers agree modulo `n`. */
  lemma Wraps(a: nat, b: nat, n: nat)
    requires 0 < n && b <= a < b + n
    ensures Mod(a, n) == Mod(b, n) <==> a == b
  {
    if Mod(a, n) == Mod(b, n) {
      var p, q := a / n, b / n;
      assert a == p * n + a % n && b == q * n + b % n;
      assert a - b == (p - q) * n;
      Between(a - b, p - q, n);
    }
  }

  lemma IsMod(a: nat, q: nat, r: nat, n: nat)
    requires r < n && a == q * n + r
    ensures Mod(a, n) == r
  {
    var p := a / n;
    assert a == p * n + a % n;
    assert a % n - r == (q - p) * n;
    Between(a % n - r, q - p, n);
  }

  lemma After(a: nat, n: nat)
    requires 0 < n
    ensures Mod(Mod(a, n) + 1, n) == Mod(a + 1, n)
  {
    var q, r := a / n, a % n;
    assert a == q * n + r;
    if r + 1 < n {
      IsMod(r + 1, 0, r + 1, n);
      IsMod(a + 1, q, r + 1, n);
    } else {
      IsMod(n, 1, 0, n);
      assert a + 1 == (q + 1) * n;
      IsMod(a + 1, q + 1, 0, n);
    }
  }

  lemma AddTurn(a: nat, n: nat)
    requires 0 < n
    ensures Mod(a + n, n) == Mod(a, n)
  {
    var q, r := a / n, a % n;
    assert a == q * n + r;
    assert a + n == (q + 1) * n + r;
    IsMod(a + n, q + 1, r, n);
  }

  lemma {:induction false} MulGap(a: nat, b: nat, d: nat)
    requires a < b
    ensures a * d + d <= b * d
    decreases b
  {
    assert b * d == (b - 1) * d + d;
    if a + 1 < b { MulGap(a, b - 1, d); }
  }

  /** Quotient and remainder are unique. */
  lemma IsDiv(x: nat, d: nat, q: nat, r: nat)
    requires r < d && x == q * d + r
    ensures x / d == q
  {
    var p := x / d;
    assert x == p * d + x % d;
    if p < q { MulGap(p, q, d); }
    if q < p { MulGap(q, p, d); }
  }
}
