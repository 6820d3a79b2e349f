/// Appending a file to a .wasm as an aligned custom section: LEB128 (section
/// 5.2.2 of the WebAssembly Core Specification), vectors, and a padding search
/// that changes the length of the field in front of the padding.
module CustomSection {
  import opened Wrappers
  import opened Bytes
  import opened Arithmetic
  import opened Buffers

  /** The errors the Python source raises. */
  datatype Failure = UnboundLocal | NoPadding | NotAligned

  datatype Result<T> = Ok(value: T) | Err(failure: Failure)

  /** The unsigned LEB128 digits of v, lowest first; no digits at all for zero. */
  function Leb(v: nat): bytes {
    if v == 0 then []
    else if v < 128 then [v]
    else [128 + v % 128] + Leb(v / 128)
  }

  method LebEncode(v: nat) returns (binary: bytes)
    ensures binary == Leb(v)
  {
    hide Leb;
    var value := v;
    binary := [];
    LebNothing();
    while value != 0
      invariant binary + Leb(value) == Leb(v)
    {
      LebStep(binary, value);
      var lower7Bits := value % 128;
      value := value / 128;
      var currentByte := if value != 0 then 128 + lower7Bits else lower7Bits;
      binary := binary + [currentByte];
    }
  }

  lemma LebNothing()
    ensures Leb(0) == []
  {
  }

  lemma LebStep(front: bytes, v: nat)
    requires v > 0
    ensures front + Leb(v) == front + [if v / 128 != 0 then 128 + v % 128 else v % 128] + Leb(v / 128)
  {
  }

  /** The number of bytes read and the value: up to the first byte below 128, or to the end. */
  function Unleb(b: bytes): (r: (nat, nat))
    requires |b| > 0
    ensures 1 <= r.0 <= |b|
  {
    if b[0] < 128 || |b| == 1 then (1, b[0] % 128)
    else var (n, v) := Unleb(b[1..]); (n + 1, b[0] % 128 + 128 * v)
  }

  /** The source shifts each digit into place; `weight` is two to the power of its shift. */
  method LebDecode(b: bytes) returns (r: Result<(nat, nat)>)
    ensures |b| == 0 ==> r == Err(UnboundLocal)
    ensures |b| > 0 ==> r == Ok(Unleb(b))
  {
    if |b| == 0 {
      return Err(UnboundLocal);
    }
    var result: nat, weight: nat, i: nat := 0, 1, 0;
    ghost var left := Unleb(b);
    assert b[0..] == b;
    TimesOne(left.1);
    while true
      invariant 0 <= i < |b| && left == Unleb(b[i..])
      invariant Unleb(b) == (i + left.0, result + Times(weight, left.1))
      decreases |b| - i
    {
      var lower7Bits := b[i] % 128;
      var highestBit := b[i] >= 128;
      UnlebStep(b, i);
      result := result + Times(weight, lower7Bits);
      if !highestBit || i + 1 == |b| {
        break;
      }
      left := Unleb(b[i + 1..]);
      Horner(weight, lower7Bits, left.1);
      weight := weight * 128;
      i := i + 1;
    }
    return Ok((i + 1, result));
  }

  function Times(a: nat, b: nat): nat { a * b }

  lemma TimesOne(b: nat)
    ensures Times(1, b) == b
  {
  }

  lemma Horner(weight: nat, digit: nat, rest: nat)
    ensures Times(weight, digit + 128 * rest) == Times(weight, digit) + Times(weight * 128, rest)
  {
    assert weight * (digit + 128 * rest) == weight * digit + weight * (128 * rest);
  }

  lemma UnlebStep(b: bytes, i: nat)
    requires i < |b|
    ensures Unleb(b[i..]) == if b[i] < 128 || i + 1 == |b| then (1, b[i] % 128)
                             else (Unleb(b[i + 1..]).0 + 1, b[i] % 128 + 128 * Unleb(b[i + 1..]).1)
  {
    assert b[i..][0] == b[i] && b[i..][1..] == b[i + 1..];
  }

  /** Decoding undoes encoding, whatever bytes follow, for every value but zero: zero has no
      bytes of its own, so the bytes that follow are decoded instead. */
  lemma {:induction false} UnlebUndoesLeb(v: nat, rest: bytes)
    requires |Leb(v) + rest| > 0
    ensures Unleb(Leb(v) + rest) == (|Leb(v)|, v) <==> v > 0
  {
    if 128 <= v {
      assert (Leb(v) + rest)[1..] == Leb(v / 128) + rest;
      UnlebUndoesLeb(v / 128, rest);
    }
  }

  /** No encoding is shorter: bytes that decode to v are at least as many as Leb gives. */
  lemma {:induction false} LebIsShortest(b: bytes)
    requires |b| > 0
    ensures |Leb(Unleb(b).1)| <= Unleb(b).0
  {
    if b[0] >= 128 && |b| > 1 {
      LebIsShortest(b[1..]);
      var v := Unleb(b).1;
      assert v / 128 == Unleb(b[1..]).1;
    }
  }

  /** A length and the bytes it counts; zero gets the one digit Leb does not give it. */
  function Vector(content: bytes): bytes {
    (if |content| == 0 then [0] else Leb(|content|)) + content
  }

  /** What a reader of a vector finds at the front of b, and what it leaves. */
  function ReadVector(b: bytes): Option<(bytes, bytes)> {
    if |b| == 0 then None
    else
      var (n, len) := Unleb(b);
      if n + len > |b| then None else Some((b[n..n + len], b[n + len..]))
  }

  lemma ReadVectorUndoesVector(content: bytes, rest: bytes)
    ensures ReadVector(Vector(content) + rest) == Some((content, rest))
  {
    var b := Vector(content) + rest;
    if |content| > 0 {
      var digits := Leb(|content|);
      assert b == digits + (content + rest);
      UnlebUndoesLeb(|content|, content + rest);
    }
  }

  /** The low bits of n are zero; with no low bits to test, as for 0, the source tests all of n. */
  predicate IsAligned(n: nat, alignment: nat) {
    if alignment == 0 then n == 0 else And(n, alignment - 1) == 0
  }

  /** For a power of two that is divisibility. */
  lemma AlignedIsDivisible(n: nat, a: nat)
    ensures Pow2(a) > 0 && (IsAligned(n, Pow2(a)) <==> n % Pow2(a) == 0)
  {
    LowBits(n, a);
  }

  function Zeros(n: nat): bytes { seq(n, _ => 0) }

  /** The position of the content when the padding vector holds `padding` zeros. */
  function ContentPos(nameLen: nat, contentLen: nat, startPos: nat, padding: nat): nat {
    var paddingLen := |Vector(Zeros(padding))|;
    startPos + 1 + |Leb(nameLen + paddingLen + contentLen)| + nameLen + paddingLen
  }

  /** Some try of the search aligns the content. */
  predicate Found(alignment: nat, nameLen: nat, contentLen: nat, startPos: nat) {
    exists p | 0 <= p < 2 * alignment :: IsAligned(ContentPos(nameLen, contentLen, startPos, p), alignment)
  }

  method CalcPadding(alignment: nat, nameLen: nat, contentLen: nat, startPos: nat) returns (r: Option<bytes>)
    ensures r.Some? <==> Found(alignment, nameLen, contentLen, startPos)
    ensures r.Some? ==> exists p | 0 <= p < 2 * alignment ::
              && r.value == Vector(Zeros(p)) && IsAligned(ContentPos(nameLen, contentLen, startPos, p), alignment)
              && forall q | 0 <= q < p :: !IsAligned(ContentPos(nameLen, contentLen, startPos, q), alignment)
  {
    var padding := 0;
    while padding < 2 * alignment
      invariant 0 <= padding <= 2 * alignment
      invariant forall q | 0 <= q < padding :: !IsAligned(ContentPos(nameLen, contentLen, startPos, q), alignment)
    {
      var paddingBin := Vector(Zeros(padding));
      var sectionLength := nameLen + |paddingBin| + contentLen;
      var sectionLengthBin := LebEncode(sectionLength);
      var pos := startPos + 1 + |sectionLengthBin| + nameLen + |paddingBin|;
      assert pos == ContentPos(nameLen, contentLen, startPos, padding);
      if IsAligned(pos, alignment) {
        assert IsAligned(ContentPos(nameLen, contentLen, startPos, padding), alignment);
        return Some(paddingBin);
      }
      padding := padding + 1;
    }
    return None;
  }

  /** One more gives at most one more digit. */
  lemma {:induction false} LebLenStep(v: nat)
    ensures |Leb(v)| <= |Leb(v + 1)| <= |Leb(v)| + 1
  {
    if 128 <= v && v / 128 != (v + 1) / 128 {
      LebLenStep(v / 128);
    }
  }

  lemma {:induction false} LebLenMonotone(v: nat, w: nat)
    requires v <= w
    ensures |Leb(v)| <= |Leb(w)|
    decreases w
  {
    if v < w {
      LebLenMonotone(v, w - 1);
      LebLenStep(w - 1);
    }
  }

  /** The number of digits never falls, and grows at most once in a window of 257 values. */
  lemma LebLenWindow(v: nat, w: nat)
    requires 0 < v <= w <= v + 256
    ensures |Leb(v)| <= |Leb(w)| <= |Leb(v)| + 1
  {
    LebLenMonotone(v, w);
    if w <= 128 * v {
      LebLenMonotone(w, 128 * v);
    } else {
      LebLenMonotone(w, 16383);
      TwoDigits(16383);
    }
  }

  lemma TwoDigits(v: nat)
    requires 128 <= v < 16384
    ensures |Leb(v)| == 2
  {
    assert |Leb(v / 128)| == 1;
  }

  /** The values with n digits. */
  lemma {:induction false} DigitsOf(v: nat, n: nat)
    requires n > 0 && Pow2(7 * (n - 1)) <= v < Pow2(7 * n)
    ensures |Leb(v)| == n
  {
    SevenBits(n - 1);
    if n > 1 {
      SevenBits(n - 2);
      DigitsOf(v / 128, n - 1);
    }
  }

  /** Digit k is the digit of 128 to the power of k, with the top bit set on all but the last. */
  lemma {:induction false} LebDigit(v: nat, k: nat)
    requires k < |Leb(v)|
    ensures Pow2(7 * k) > 0 && Leb(v)[k] % 128 == v / Pow2(7 * k) % 128
    ensures Leb(v)[k] >= 128 <==> k < |Leb(v)| - 1
  {
    hide Pow2;
    Pow2Monotone(0, 7 * k);
    if k > 0 {
      LebDigit(v / 128, k - 1);
      SevenBits(k - 1);
      DigitUp(v, Pow2(7 * (k - 1)));
    } else {
      SmallPowers();
      LebNotEmpty(v / 128);
    }
  }

  lemma LebNotEmpty(v: nat)
    ensures v > 0 ==> |Leb(v)| > 0
  {
  }

  lemma DigitUp(v: nat, p: nat)
    requires p > 0
    ensures v / 128 / p == v / (128 * p)
  {
    var h, q, r := v / 128, v / 128 / p, v / 128 % p;
    assert h == q * p + r;
    assert v == q * (128 * p) + (128 * r + v % 128);
    RemainderIs(v, 128 * p, q, 128 * r + v % 128);
  }

  lemma SevenBits(n: nat)
    ensures Pow2(7 * (n + 1)) == 128 * Pow2(7 * n)
  {
    Pow2Product(7, 7 * n);
    assert Pow2(7) == 128 by { SmallPowers(); }
  }

  lemma SmallPowers()
    ensures Pow2(0) == 1 && Pow2(1) == 2 && Pow2(2) == 4 && Pow2(3) == 8
    ensures Pow2(4) == 16 && Pow2(5) == 32 && Pow2(6) == 64 && Pow2(7) == 128
  {
  }

  /** Among Pow2(a) consecutive numbers one is aligned. */
  lemma SomeAligned(n: nat, a: nat) returns (k: nat)
    ensures k < Pow2(a) && IsAligned(n + k, Pow2(a))
  {
    hide Pow2, IsAligned;
    Pow2Monotone(0, a);
    var d := Pow2(a);
    var q, r := n / d, n % d;
    assert n == q * d + r;
    k := if r == 0 then 0 else d - r;
    assert (q + 1) * d == q * d + d;
    RemainderIs(n + k, d, if r == 0 then q else q + 1, 0);
    AlignedIsDivisible(n + k, a);
  }

  /** The length of the padding vector: a digit more from 128 zeros on. */
  lemma VectorLength(p: nat)
    requires p < 256
    ensures |Vector(Zeros(p))| == p + if p < 128 then 1 else 2
  {
    if p >= 128 {
      TwoDigits(p);
    }
  }

  /** Up to the alignment of 128 the search always finds a padding: the section length gains a digit
      at most once during the tries, so one half of them reaches consecutive positions. */
  lemma PaddingIsFound(a: nat, nameLen: nat, contentLen: nat, startPos: nat)
    requires a <= 7
    ensures Found(Pow2(a), nameLen, contentLen, startPos)
  {
    hide IsAligned, Vector, Zeros, Leb;
    SmallPowers();
    var alignment := Pow2(a);
    var v := nameLen + 1 + contentLen;
    var half := if |Leb(v + alignment - 1)| == |Leb(v)| then 0 else alignment;
    var front := if half < 128 then 1 else 2;
    var digits := |Leb(v + front - 1 + half)|;
    var k := SomeAligned(startPos + 1 + digits + nameLen + front + half, a);
    var p := half + k;
    VectorLength(p);
    LebLenWindow(v, v + alignment - 1);
    LebLenWindow(v, v + front - 1 + p);
    LebLenWindow(v, v + front - 1 + half);
    LebLenMonotone(v + front - 1 + half, v + front - 1 + p);
    if half == 0 {
      LebLenMonotone(v + p, v + alignment - 1);
    } else {
      LebLenMonotone(v + alignment - 1, v + front - 1 + half);
    }
    assert |Leb(v + front - 1 + p)| == digits;
    assert IsAligned(ContentPos(nameLen, contentLen, startPos, p), alignment);
  }

  /** From the alignment of 256 on there is an input on which no padding is found: the length of the
      padding vector gains a digit at P zeros, the length of the section exactly one alignment
      further on, and the two positions left out are the only aligned ones the search could reach. */
  lemma NoPaddingIsFound(a: nat) returns (contentLen: nat, startPos: nat)
    requires a >= 8
    ensures !Found(Pow2(a), 1, contentLen, startPos)
  {
    hide IsAligned, Vector, Zeros, Leb, Pow2;
    var k, p := LargestStep(a);
    contentLen := 16383 * p - k - Pow2(a) - 1;
    startPos := Pow2(a) - p - 2 * k - 4;
    forall padding | 0 <= padding < 2 * Pow2(a)
      ensures !IsAligned(ContentPos(1, contentLen, startPos, padding), Pow2(a))
    {
      PositionSkips(a, k, p, contentLen, startPos, padding);
    }
  }

  /** The largest power of 128 below the alignment. */
  lemma LargestStep(a: nat) returns (k: nat, p: nat)
    requires a >= 8
    ensures k > 0 && p == Pow2(7 * k) && p >= 128 && p >= 2 * k + 4 && 2 * p <= Pow2(a) <= 128 * p
  {
    k := (a - 1) / 7;
    p := Pow2(7 * k);
    assert Pow2(7 * k + 1) == 2 * p;
    Pow2Monotone(7 * k + 1, a);
    Pow2Monotone(a, 7 * (k + 1));
    SevenBits(k);
    StepIsLarge(k);
  }

  lemma {:induction false} StepIsLarge(k: nat)
    requires k > 0
    ensures Pow2(7 * k) >= 128 && Pow2(7 * k) >= 2 * k + 4
  {
    SevenBits(k - 1);
    if k > 1 {
      StepIsLarge(k - 1);
    } else {
      assert Pow2(0) == 1;
    }
  }

  lemma PositionSkips(a: nat, k: nat, p: nat, contentLen: nat, startPos: nat, padding: nat)
    requires k > 0 && p == Pow2(7 * k) && p >= 128 && p >= 2 * k + 4 && 2 * p <= Pow2(a) <= 128 * p
    requires contentLen == 16383 * p - k - Pow2(a) - 1 && startPos == Pow2(a) - p - 2 * k - 4
    requires padding < 2 * Pow2(a)
    ensures !IsAligned(ContentPos(1, contentLen, startPos, padding), Pow2(a))
  {
    hide IsAligned, Vector, Zeros, Leb, Pow2;
    var A := Pow2(a);
    var n := |Vector(Zeros(padding))|;
    PaddingLength(k, p, padding);
    SectionDigits(k, p, 1 + n + contentLen);
    var pos := ContentPos(1, contentLen, startPos, padding);
    if padding < p {
      BetweenMultiples(pos, 0, a);
    } else if n < p + k + A {
      BetweenMultiples(pos, 1, a);
    } else {
      BetweenMultiples(pos, 2, a);
    }
  }

  lemma PaddingLength(k: nat, p: nat, padding: nat)
    requires k > 0 && p == Pow2(7 * k) && padding < 16384 * p
    ensures var n := |Vector(Zeros(padding))|;
            && 1 <= n <= padding + k + 2
            && (if padding < p then n < p + k else n >= padding + k + 1)
  {
    hide Leb, Pow2;
    SevenBits(k);
    SevenBits(k + 1);
    if padding > 0 {
      if padding < p {
        DigitsOf(p - 1, k) by { SevenBits(k - 1); Pow2Monotone(0, 7 * (k - 1)); }
        LebLenMonotone(padding, p - 1);
      } else {
        DigitsOf(p, k + 1);
        LebLenMonotone(p, padding);
        DigitsOf(16384 * p - 1, k + 2);
        LebLenMonotone(padding, 16384 * p - 1);
      }
    }
  }

  lemma SectionDigits(k: nat, p: nat, v: nat)
    requires p == Pow2(7 * k) && 128 * p <= v < 2097152 * p
    ensures |Leb(v)| == if v < 16384 * p then k + 2 else k + 3
  {
    hide Leb, Pow2;
    SevenBits(k);
    SevenBits(k + 1);
    SevenBits(k + 2);
    DigitsOf(v, if v < 16384 * p then k + 2 else k + 3);
  }

  lemma BetweenMultiples(n: nat, q: nat, a: nat)
    requires q * Pow2(a) < n < q * Pow2(a) + Pow2(a)
    ensures !IsAligned(n, Pow2(a))
  {
    hide Pow2, And;
    AlignedIsDivisible(n, a);
    RemainderIs(n, Pow2(a), q, n - q * Pow2(a));
  }

  /** For a power of two the search succeeds on every input if and only if it is at most 128. */
  lemma SearchSucceedsIff(a: nat)
    ensures (forall nameLen: nat, contentLen: nat, startPos: nat :: Found(Pow2(a), nameLen, contentLen, startPos))
       <==> Pow2(a) <= 128
  {
    hide Found;
    SmallPowers();
    if a <= 7 {
      Pow2Monotone(a, 7);
      forall nameLen: nat, contentLen: nat, startPos: nat
        ensures Found(Pow2(a), nameLen, contentLen, startPos)
      {
        PaddingIsFound(a, nameLen, contentLen, startPos);
      }
    } else {
      Pow2Monotone(8, a);
      var contentLen, startPos := NoPaddingIsFound(a);
    }
  }

  /** The bytes of the section: id 0, the length of what follows it, name, padding, content. */
  function Section(name: bytes, padding: nat, content: bytes): bytes {
    var nameBin, paddingBin := Vector(name), Vector(Zeros(padding));
    [0] + Leb(|nameBin| + |paddingBin| + |content|) + nameBin + paddingBin + content
  }

  /** It fails exactly when the search does; no padding is then a type error in Python. */
  method CreateCustomSectionAligned(startPos: nat, name: bytes, content: bytes, alignment: nat := 4)
    returns (r: Result<bytes>)
    ensures r.Ok? <==> Found(alignment, |Vector(name)|, |content|, startPos)
    ensures r.Ok? ==> exists p: nat ::
              && r.value == Section(name, p, content)
              && IsAligned(startPos + |r.value| - |content|, alignment)
              && forall q: nat | q < p :: !IsAligned(ContentPos(|Vector(name)|, |content|, startPos, q), alignment)
  {
    hide Vector, IsAligned;
    var nameBin := Vector(name);
    var paddingBin := CalcPadding(alignment, |nameBin|, |content|, startPos);
    if paddingBin.None? {
      return Err(NoPadding);
    }
    var pos := startPos + 1;
    var sectionLength := |nameBin| + |paddingBin.value| + |content|;
    var sectionLengthBin := LebEncode(sectionLength);
    pos := pos + |sectionLengthBin|;
    pos := pos + |nameBin|;
    pos := pos + |paddingBin.value|;
    if !IsAligned(pos, alignment) {
      return Err(NotAligned);
    }
    var full := [0] + sectionLengthBin + nameBin + paddingBin.value + content;
    ghost var p: nat :| && paddingBin.value == Vector(Zeros(p))
                        && forall q | 0 <= q < p :: !IsAligned(ContentPos(|nameBin|, |content|, startPos, q), alignment);
    assert full == Section(name, p, content);
    return Ok(full);
  }

  /** A reader of custom sections (section 5.5.3 of the WebAssembly Core Specification) that also
      skips the padding vector: the name, the content, the padding and the bytes left over. */
  function ParseSection(b: bytes): Option<(bytes, bytes, bytes, bytes)> {
    if |b| < 2 || b[0] != 0 then None
    else
      var (n, size) := Unleb(b[1..]);
      if 1 + n + size > |b| then None
      else
        match ReadVector(b[1 + n..1 + n + size])
        case None => None
        case Some((name, rest)) =>
          match ReadVector(rest)
          case None => None
          case Some((padding, content)) => Some((name, content, padding, b[1 + n + size..]))
  }

  /** Parsing the section gives back the name and the content, whatever follows it in the file; the
      length field counts exactly the bytes behind it. */
  lemma ParseUndoesSection(name: bytes, padding: nat, content: bytes, rest: bytes)
    ensures ParseSection(Section(name, padding, content) + rest) == Some((name, content, Zeros(padding), rest))
  {
    hide Vector, Zeros, ReadVector, Section;
    var nameBin, paddingBin := Vector(name), Vector(Zeros(padding));
    var body := nameBin + paddingBin + content;
    SectionShape(name, padding, content);
    Slices(Leb(|body|), body, rest);
    VectorNotEmpty(name);
    UnlebUndoesLeb(|body|, body + rest);
    assert body == nameBin + (paddingBin + content);
    ReadVectorUndoesVector(name, paddingBin + content);
    ReadVectorUndoesVector(Zeros(padding), content);
  }

  lemma SectionShape(name: bytes, padding: nat, content: bytes)
    ensures var body := Vector(name) + Vector(Zeros(padding)) + content;
            Section(name, padding, content) == [0] + Leb(|body|) + body
  {
    hide Vector, Zeros;
    var nameBin, paddingBin := Vector(name), Vector(Zeros(padding));
    Regroup4([0] + Leb(|nameBin| + |paddingBin| + |content|), nameBin, paddingBin, content);
  }

  lemma Slices(digits: bytes, body: bytes, rest: bytes)
    ensures var b := [0] + digits + body + rest;
            && b[1..] == digits + (body + rest)
            && b[1 + |digits|..1 + |digits| + |body|] == body
            && b[1 + |digits| + |body|..] == rest
  {
  }

  lemma VectorNotEmpty(content: bytes)
    ensures |Vector(content)| > 0
  {
  }
}
