/// Reading an AOT file: a pointer that is aligned before every read and checked
/// against the end of its section.
module AotFile {
  import opened Wrappers
  import opened Bytes

  function Min(a: nat, b: nat): nat { if a < b then a else b }

  /** A section loaded at an address; reads are aligned to addresses, not to offsets. */
  datatype Section = Section(data: bytes, address: nat) {

    function Aligned(pos: nat, alignment: nat): (p: nat)
      requires alignment > 0
      ensures p >= pos
    {
      AlignUpGrows(address + pos, alignment);
      AlignUp(address + pos, alignment) - address
    }

    /** CHECK_BUF. */
    predicate Has(pos: nat, length: nat) { pos + length <= |data| }

    /** A number of n bytes, aligned to its size but to no more than four, and the position behind it. */
    function Read(pos: nat, n: nat): (r: Option<(nat, nat)>)
      requires n > 0
      ensures r.Some? <==> Aligned(pos, Min(n, 4)) + n <= |data|
      ensures r.Some? ==> pos + n <= r.value.1 == Aligned(pos, Min(n, 4)) + n
      ensures r.Some? ==> FromLE(data[r.value.1 - n..r.value.1]) == r.value.0
    {
      var p := Aligned(pos, Min(n, 4));
      if Has(p, n) then Some((FromLE(data[p..p + n]), p + n)) else None
    }
  }
}
