/// Products, powers of two and the bitwise and of natural numbers.
module Arithmetic {

  lemma MulMono(a: int, b: int, c: int)
    requires 0 <= a && b <= c
    ensures a * b <= a * c
  {
    assert a * (c - b) >= 0;
  }

  function Pow2(n: nat): nat {
    if n == 0 then 1 else 2 * Pow2(n - 1)
  }

  lemma {:induction false} Pow2Monotone(m: nat, n: nat)
    requires m <= n
    ensures 0 < Pow2(m) <= Pow2(n)
    decreases n
  {
    if m < n {
      Pow2Monotone(m, n - 1);
    } else if n > 0 {
      Pow2Monotone(m - 1, n - 1);
    }
  }

  lemma {:induction false} Pow2Product(m: nat, n: nat)
    ensures Pow2(m) * Pow2(n) == Pow2(m + n)
  {
    if m > 0 {
      Pow2Product(m - 1, n);
      assert Pow2(m) * Pow2(n) == 2 * (Pow2(m - 1) * Pow2(n));
    }
  }

  /** Bitwise and. */
  function And(x: nat, y: nat): nat {
    if x == 0 || y == 0 then 0 else (if x % 2 == 1 && y % 2 == 1 then 1 else 0) + 2 * And(x / 2, y / 2)
  }

  lemma {:induction false} AndSelf(x: nat)
    ensures And(x, x) == x
  {
    if x > 0 {
      AndSelf(x / 2);
    }
  }

  lemma AndStep(x: nat, y: nat)
    ensures And(x, y) == (if x % 2 == 1 && y % 2 == 1 then 1 else 0) + 2 * And(x / 2, y / 2)
  {
  }

  /** The k low bits are the remainder of the division by two to the power of k. */
  lemma {:induction false} LowBits(x: nat, k: nat)
    ensures Pow2(k) > 0 && And(x, Pow2(k) - 1) == x % Pow2(k)
  {
    hide And;
    Pow2Monotone(0, k);
    AndStep(x, Pow2(k) - 1);
    if k == 0 {
      AndNothing(x);
    } else {
      var p := Pow2(k - 1);
      LowBits(x / 2, k - 1);
      HalfRemainder(x, p);
      Predecessor(p);
    }
  }

  lemma AndNothing(x: nat)
    ensures And(x, 0) == 0
  {
  }

  lemma Predecessor(p: nat)
    requires p > 0
    ensures (2 * p - 1) / 2 == p - 1 && (2 * p - 1) % 2 == 1
  {
  }

  lemma HalfRemainder(x: nat, p: nat)
    requires p > 0
    ensures x % (2 * p) == x % 2 + 2 * (x / 2 % p)
  {
    var q, r := x / 2 / p, x / 2 % p;
    assert x / 2 == q * p + r;
    assert x == q * (2 * p) + (2 * r + x % 2);
    RemainderIs(x, 2 * p, q, 2 * r + x % 2);
  }

  lemma RemainderIs(n: nat, d: nat, q: nat, r: nat)
    requires n == q * d + r && r < d
    ensures n / d == q && n % d == r
  {
    var x := n / d - q;
    assert n == n / d * d + n % d;
    assert x * d == r - n % d;
    if x >= 1 {
      MulMono(d, 1, x);
    } else if x <= -1 {
      MulMono(d, x, -1);
    }
  }

  lemma DivAddMultiple(q: nat, d: nat, n: nat)
    requires d > 0
    ensures (q * d + n) / d == q + n / d && (q * d + n) % d == n % d
  {
    AddProducts(q, n / d, d);
    RemainderIs(q * d + n, d, q + n / d, n % d);
  }

  lemma AddProducts(a: int, b: int, d: int)
    ensures (a + b) * d == a * d + b * d
  {
  }
}
