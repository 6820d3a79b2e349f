/// Bytes as the source shifts and masks them, and as numbers.
module ByteBits {
  import opened Arithmetic

  lemma SmallPowers()
    ensures Pow2(0) == 1 && Pow2(1) == 2 && Pow2(2) == 4 && Pow2(3) == 8
    ensures Pow2(4) == 16 && Pow2(5) == 32 && Pow2(6) == 64 && Pow2(7) == 128
    ensures Pow2(8) == 256
  {
    assert Pow2(4) == 16;
  }

  lemma LowBit(b: bv8)
    ensures (b & 1) as int == b as int % 2
  {
  }

  lemma LowPair(b: bv8)
    ensures (b & 3) as int == b as int % 4
  {
  }

  function Shifted(b: bv8, k: nat): nat
    requires k < 8
  {
    (b >> k) as int
  }

  lemma {:induction false} ShiftDown(b: bv8, k: nat)
    requires k < 8
    ensures Pow2(k) > 0 && Shifted(b, k) == b as int / Pow2(k)
  {
    hide Shifted;
    if k > 0 {
      ShiftDown(b, k - 1);
      OneFurther(b, k - 1);
      HalfOf(b as int, Pow2(k - 1));
    } else {
      NotShifted(b);
    }
  }

  lemma NotShifted(b: bv8)
    ensures Shifted(b, 0) == b as int
  {
  }

  lemma OneFurther(b: bv8, k: nat)
    requires k < 7
    ensures Shifted(b, k + 1) == Shifted(b, k) / 2
  {
    Halves(b >> k);
    assert k == 0 || k == 1 || k == 2 || k == 3 || k == 4 || k == 5 || k == 6;
  }

  lemma Halves(b: bv8)
    ensures (b >> 1) as int == b as int / 2
  {
  }

  lemma HalfOf(n: nat, p: nat)
    requires p > 0
    ensures n / p / 2 == n / (2 * p)
  {
    var q, r := n / p, n % p;
    assert n == q * p + r;
    assert n == q / 2 * (2 * p) + (q % 2 * p + r);
    MulMono(p, q % 2, 1);
    RemainderIs(n, 2 * p, q / 2, q % 2 * p + r);
  }

  lemma NibblesOf(b: bv8)
    ensures (b & 0xf) as int == b as int % 16 && (b >> 4) as int == ((b >> 4) & 0xf) as int == b as int / 16
  {
  }
}
