/// Bytes and little-endian numbers, shared by the file formats.
module Bytes {
  import opened Arithmetic

  type byte = b: int | 0 <= b < 256
  type bytes = seq<byte>

  const TWO_16: nat := 0x1_0000
  const TWO_32: nat := 0x1_0000_0000
  const TWO_64: nat := 0x1_0000_0000_0000_0000

  type Word16 = w: int | 0 <= w < TWO_16
  type Word32 = w: int | 0 <= w < TWO_32
  type Word64 = w: int | 0 <= w < TWO_64

  /** The n low bytes of v, lowest first. */
  function LE(v: nat, n: nat): (b: bytes)
    ensures |b| == n
  {
    if n == 0 then [] else [v % 256] + LE(v / 256, n - 1)
  }

  function FromLE(b: bytes): nat {
    if b == [] then 0 else b[0] + 256 * FromLE(b[1..])
  }

  function Pow256(n: nat): nat {
    if n == 0 then 1 else 256 * Pow256(n - 1)
  }

  lemma {:induction false} FromLEUndoesLE(v: nat, n: nat)
    requires v < Pow256(n)
    ensures FromLE(LE(v, n)) == v
  {
    if n > 0 {
      FromLEUndoesLE(v / 256, n - 1);
    }
  }

  /** The k-th byte is the digit of 256 to the power of k. */
  lemma {:induction false} LEDigit(v: nat, n: nat, k: nat)
    requires k < n
    ensures Pow256(k) > 0 && LE(v, n)[k] == v / Pow256(k) % 256
  {
    if k > 0 {
      LEDigit(v / 256, n - 1, k - 1);
      DigitUp(v, Pow256(k - 1));
    }
  }

  lemma DigitUp(v: nat, p: nat)
    requires p > 0
    ensures v / 256 / p == v / (256 * p)
  {
    var h, q, r := v / 256, v / 256 / p, v / 256 % p;
    assert h == q * p + r;
    assert v == q * (256 * p) + (256 * r + v % 256);
    RemainderIs(v, 256 * p, q, 256 * r + v % 256);
  }

  lemma WordSizes()
    ensures Pow256(2) == TWO_16 && Pow256(4) == TWO_32 && Pow256(8) == TWO_64
  {
    assert Pow256(4) == 256 * Pow256(3);
    assert Pow256(8) == 256 * Pow256(7);
    assert Pow256(6) == 256 * Pow256(5);
  }

  lemma Word32Back(w: Word32)
    ensures FromLE(LE(w, 4)) == w
  {
    WordSizes();
    FromLEUndoesLE(w, 4);
  }

  /** n rounded up to a multiple of the alignment. */
  function AlignUp(n: nat, alignment: nat): nat
    requires alignment > 0
  {
    (n + alignment - 1) / alignment * alignment
  }

  lemma AlignUpIs(n: nat, d: nat)
    requires d > 0
    ensures AlignUp(n, d) == if n % d == 0 then n else n - n % d + d
  {
    var q, r := n / d, n % d;
    assert n == q * d + r && (q + 1) * d == q * d + d;
    if r == 0 {
      RemainderIs(n + d - 1, d, q, d - 1);
    } else {
      RemainderIs(n + d - 1, d, q + 1, r - 1);
    }
  }

  lemma AlignUpGrows(n: nat, alignment: nat)
    requires alignment > 0
    ensures n <= AlignUp(n, alignment)
  {
    hide AlignUp;
    AlignUpIs(n, alignment);
  }

  lemma {:induction false} FromLEBound(b: bytes)
    ensures FromLE(b) < Pow256(|b|)
  {
    if b != [] {
      FromLEBound(b[1..]);
    }
  }
}
