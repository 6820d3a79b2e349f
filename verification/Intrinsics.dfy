/// The counting intrinsics as shift-and-mask loops on words of a given width,
/// and the ranges of memory-operation sizes built on them.
module Intrinsics {
  import opened Arithmetic

  /** The number of leading zeros of a word (iclz, section 4.3.2 of the WebAssembly Core Specification). */
  predicate IsClz(width: nat, x: nat, n: nat) {
    if x == 0 then n == width else n < width && Pow2(width - 1 - n) <= x < Pow2(width - n)
  }

  /** The number of trailing zeros (ictz). */
  ghost predicate IsCtz(width: nat, x: nat, n: nat) {
    if x == 0 then n == width else exists k: nat :: Odd(k) && x == k * Pow2(n)
  }

  predicate Odd(k: nat) { k % 2 == 1 }

  /** The number of ones (ipopcnt). */
  function Ones(x: nat): nat {
    if x == 0 then 0 else x % 2 + Ones(x / 2)
  }

  method Clz(width: nat, x: nat) returns (num: nat)
    requires width > 0 && x < Pow2(width)
    ensures IsClz(width, x, num)
  {
    num := 0;
    if x == 0 {
      return width;
    }
    var word := x;
    while word < Pow2(width - 1)
      invariant num < width && 0 < word < Pow2(width) && word == x * Pow2(num)
      decreases width - num
    {
      hide Pow2;
      PowStep(width);
      SmallMod(word * 2, Pow2(width));
      Shifted(x, num + 1);
      if num + 1 >= width {
        TooFar(width, x, num + 1);
      }
      word := word * 2 % Pow2(width);
      num := num + 1;
    }
    ClzIs(width, x, num);
  }

  lemma PowStep(n: nat)
    requires n > 0
    ensures Pow2(n) == 2 * Pow2(n - 1)
  {
  }

  lemma SmallMod(a: nat, m: nat)
    requires a < m
    ensures a % m == a
  {
  }

  lemma Shifted(x: nat, n: nat)
    requires n > 0
    ensures x * Pow2(n) == 2 * (x * Pow2(n - 1))
  {
  }

  lemma TooFar(width: nat, x: nat, num: nat)
    requires 0 < x && num >= width
    ensures x * Pow2(num) >= Pow2(width)
  {
    Pow2Monotone(width, num);
    MulMono(Pow2(num), 1, x);
  }

  lemma MulCancel(a: nat, b: nat, p: nat)
    requires p > 0
    ensures a * p <= b * p <==> a <= b
  {
    if a <= b {
      MulMono(p, a, b);
    } else {
      MulMono(p, b + 1, a);
    }
  }

  /** A word shifted up by num until its top bit is set had num leading zeros. */
  lemma ClzIs(width: nat, x: nat, num: nat)
    requires num < width && 0 < x && Pow2(width - 1) <= x * Pow2(num) < Pow2(width)
    ensures IsClz(width, x, num)
  {
    Pow2Product(width - 1 - num, num);
    Pow2Product(width - num, num);
    Pow2Monotone(0, num);
    MulCancel(Pow2(width - 1 - num), x, Pow2(num));
    MulCancel(Pow2(width - num), x, Pow2(num));
  }

  method Ctz(width: nat, x: nat) returns (num: nat)
    ensures IsCtz(width, x, num)
  {
    num := 0;
    if x == 0 {
      return width;
    }
    var word := x;
    while word % 2 == 0
      invariant 0 < word && x == word * Pow2(num)
      decreases word
    {
      Shifted(word / 2, num + 1);
      word := word / 2;
      num := num + 1;
    }
    assert Odd(word);
  }

  method Popcnt(x: nat) returns (ret: nat)
    ensures ret == Ones(x)
  {
    var u := x;
    ret := 0;
    while u != 0
      invariant ret + Ones(u) == Ones(x)
      decreases u
    {
      AndPredecessor(u);
      u := And(u, u - 1);
      ret := ret + 1;
    }
  }

  /** u & (u - 1) drops exactly the lowest one. */
  lemma {:induction false} AndPredecessor(u: nat)
    requires u > 0
    ensures And(u, u - 1) < u && Ones(And(u, u - 1)) == Ones(u) - 1
  {
    if u % 2 == 0 {
      AndPredecessor(u / 2);
      assert (u - 1) / 2 == u / 2 - 1;
      assert And(u, u - 1) == 2 * And(u / 2, u / 2 - 1);
      OnesOfDouble(And(u / 2, u / 2 - 1));
    } else {
      assert (u - 1) / 2 == u / 2;
      AndSelf(u / 2);
      assert And(u, u - 1) == 2 * (u / 2);
      OnesOfDouble(u / 2);
    }
  }

  /** The lowest value of the range a memory-operation size is counted in: sizes up to 8 by
      themselves, the powers of two up to 512 by themselves, what lies between two of them by its
      lowest value, and everything from 513 on together. */
  function RangeRep(v: nat): nat {
    if v <= 8 then v
    else if v < 16 then 9
    else if v == 16 then 16
    else if v < 32 then 17
    else if v == 32 then 32
    else if v < 64 then 33
    else if v == 64 then 64
    else if v < 128 then 65
    else if v == 128 then 128
    else if v < 256 then 129
    else if v == 256 then 256
    else if v < 512 then 257
    else if v == 512 then 512
    else 513
  }

  method InstrProfGetRangeRepValue(value: nat) returns (r: nat)
    requires value < Pow2(64)
    ensures r == RangeRep(value)
  {
    if value <= 8 {
      return value;
    } else if value >= 513 {
      return 513;
    }
    var ones := Popcnt(value);
    SingleOne(value);
    if ones == 1 {
      return value;
    }
    var zeros := Clz(64, value);
    Magnitude(value, zeros);
    return Pow2(64 - zeros - 1) + 1;
  }

  /** The sizes with a single one are the powers of two. */
  lemma SingleOne(v: nat)
    requires 8 < v < 513
    ensures Ones(v) == 1 <==> v in {16, 32, 64, 128, 256, 512}
  {
    hide Pow2, Ones;
    OnesOfPow2(4); OnesOfPow2(5); OnesOfPow2(6); OnesOfPow2(7); OnesOfPow2(8); OnesOfPow2(9);
    SmallPowers();
    if Ones(v) == 1 {
      var n := SingleOneIsPow2(v);
      if n < 4 {
        Pow2Monotone(n, 3);
      } else if n > 9 {
        Pow2Monotone(10, n);
      }
    }
  }

  lemma SmallPowers()
    ensures Pow2(3) == 8 && Pow2(4) == 16 && Pow2(5) == 32 && Pow2(6) == 64
    ensures Pow2(7) == 128 && Pow2(8) == 256 && Pow2(9) == 512 && Pow2(10) == 1024
  {
    assert Pow2(3) == 8 && Pow2(6) == 64;
  }

  lemma {:induction false} OnesOfPow2(n: nat)
    ensures Pow2(n) > 0 && Ones(Pow2(n)) == 1
  {
    if n > 0 {
      OnesOfPow2(n - 1);
      OnesOfDouble(Pow2(n - 1));
    }
  }

  lemma OnesOfDouble(x: nat)
    ensures Ones(2 * x) == Ones(x)
  {
    assert 2 * x / 2 == x;
  }

  lemma {:induction false} SingleOneIsPow2(v: nat) returns (n: nat)
    requires Ones(v) == 1
    ensures v == Pow2(n)
  {
    if v % 2 == 0 {
      n := SingleOneIsPow2(v / 2);
      n := n + 1;
    } else {
      NoOnes(v / 2);
      n := 0;
    }
  }

  lemma {:induction false} NoOnes(v: nat)
    ensures Ones(v) == 0 ==> v == 0
  {
    if v > 0 {
      NoOnes(v / 2);
    }
  }

  lemma Magnitude(v: nat, zeros: nat)
    requires 8 < v < 512 && IsClz(64, v, zeros)
    ensures var p := Pow2(63 - zeros); p in {8, 16, 32, 64, 128, 256} && p <= v < 2 * p
  {
    SmallPowers();
    PowStep(64 - zeros);
    if 63 - zeros < 3 {
      Pow2Monotone(64 - zeros, 3);
    } else if 63 - zeros >= 9 {
      Pow2Monotone(9, 63 - zeros);
    }
  }

  /** The ranges themselves: a power of two from 16 to 512 is one alone, what lies between two powers
      is one, and so are all sizes above. */
  lemma RangeRepOf(v: nat, n: nat)
    requires Pow2(n) <= v < 2 * Pow2(n)
    ensures v <= 8 ==> RangeRep(v) == v
    ensures v > 512 ==> RangeRep(v) == 513
    ensures 8 < v <= 512 ==> RangeRep(v) == if v == Pow2(n) then v else Pow2(n) + 1
  {
    SmallPowers();
    if n < 3 {
      Pow2Monotone(n + 1, 3);
    } else if n > 9 {
      Pow2Monotone(10, n);
    }
  }

  /** The representative of a range is in the range: it represents itself. */
  lemma RangeRepIdempotent(v: nat)
    ensures RangeRep(RangeRep(v)) == RangeRep(v) <= v
  {
  }

  lemma RangeRepMonotone(v: nat, w: nat)
    requires v <= w
    ensures RangeRep(v) <= RangeRep(w)
  {
  }
}
