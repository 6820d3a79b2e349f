/// Sequences of bytes laid out one behind the other, and the writing of such a
/// layout into a buffer from the front.
module Buffers {
  import opened Bytes

  function Concat(parts: seq<bytes>): bytes {
    if parts == [] then [] else Concat(parts[..|parts| - 1]) + parts[|parts| - 1]
  }

  lemma ConcatAppend(parts: seq<bytes>, part: bytes)
    ensures Concat(parts + [part]) == Concat(parts) + part
  {
    assert (parts + [part])[..|parts|] == parts;
  }

  lemma {:induction false} ConcatPart(parts: seq<bytes>, k: nat)
    requires k < |parts|
    ensures |Concat(parts[..k])| + |parts[k]| <= |Concat(parts)|
    ensures Concat(parts)[|Concat(parts[..k])|..|Concat(parts[..k])| + |parts[k]|] == parts[k]
  {
    var n := |parts| - 1;
    var front := Concat(parts[..n]);
    assert Concat(parts) == front + parts[n];
    if k < n {
      ConcatPart(parts[..n], k);
      assert parts[..n][..k] == parts[..k];
      SliceOfFront(front, parts[n], |Concat(parts[..k])|, |Concat(parts[..k])| + |parts[k]|);
    } else {
      assert (front + parts[n])[|front|..|front| + |parts[n]|] == parts[n];
    }
  }

  lemma SliceOfFront(front: bytes, rest: bytes, i: nat, j: nat)
    requires i <= j <= |front|
    ensures (front + rest)[i..j] == front[i..j]
  {
  }

  lemma SliceOfSlice(b: bytes, at: nat, n: nat, i: nat, j: nat)
    requires i <= j <= n && at + n <= |b|
    ensures b[at..at + n][i..j] == b[at + i..at + j]
  {
    var l, r := b[at..at + n][i..j], b[at + i..at + j];
    assert |l| == |r| && forall t | 0 <= t < |l| :: l[t] == r[t];
  }

  lemma SliceBehind(front: bytes, rest: bytes, i: nat, j: nat)
    requires i <= j <= |rest|
    ensures (front + rest)[|front| + i..|front| + j] == rest[i..j]
  {
  }

  lemma Regroup(a: bytes, b: bytes, c: bytes, d: bytes, e: bytes, f: bytes)
    ensures a + b + c + d + e + f == a + (b + (c + (d + e + f)))
  {
  }

  lemma Regroup4(a: bytes, b: bytes, c: bytes, d: bytes)
    ensures a + b + c + d == a + (b + c + d)
  {
  }

  lemma Regroup3(a: bytes, b: bytes, c: bytes)
    ensures a + b + c == a + (b + c)
  {
  }

  /** The buffer held `was`; its front is overwritten by the image written so far. */
  ghost predicate Written(buf: bytes, was: bytes, image: bytes) {
    |image| <= |was| && buf == image + was[|image|..]
  }

  method Put(buf: array<byte>, pos: nat, src: bytes, ghost was: bytes, ghost image: bytes) returns (next: nat)
    requires Written(buf[..], was, image) && pos == |image| && pos + |src| <= buf.Length
    modifies buf
    ensures Written(buf[..], was, image + src) && next == |image + src|
  {
    forall i | 0 <= i < |src| {
      buf[pos + i] := src[i];
    }
    next := pos + |src|;
    assert |was| == buf.Length;
    assert forall i | 0 <= i < buf.Length ::
        buf[i] == if i < pos then image[i] else if i < next then src[i - pos] else was[i];
  }

  lemma Skip(buf: bytes, was: bytes, image: bytes, hole: bytes)
    requires Written(buf, was, image) && hole <= was[|image|..]
    ensures Written(buf, was, image + hole)
  {
  }

  /** Bytes that were skipped are written later. */
  method Patch(buf: array<byte>, at: nat, src: bytes, ghost was: bytes, ghost front: bytes, ghost hole: bytes, ghost back: bytes)
    requires Written(buf[..], was, front + hole + back) && at == |front| && |hole| == |src|
    modifies buf
    ensures Written(buf[..], was, front + src + back)
  {
    assert |was| == buf.Length;
    forall i | 0 <= i < |src| {
      buf[at + i] := src[i];
    }
    ghost var image := front + hole + back;
    assert forall i | 0 <= i < buf.Length ::
        buf[i] == if at <= i < at + |src| then src[i - at] else (image + was[|image|..])[i];
  }

  /** The next n bytes of the buffer, skipped. */
  lemma Hole(buf: bytes, was: bytes, image: bytes, n: nat) returns (hole: bytes)
    requires Written(buf, was, image) && |image| + n <= |was|
    ensures |hole| == n && Written(buf, was, image + hole)
  {
    hole := was[|image|..|image| + n];
    Skip(buf, was, image, hole);
  }
}
