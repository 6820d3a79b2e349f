/// The check of a relocation section's symbol table: offsets into a buffer of
/// length-prefixed strings, each padded to an even length.
module SymbolTable {
  import opened Wrappers
  import opened Bytes
  import opened AotFile

  /** The length prefix of the record at an even position. */
  function RecordLength(data: bytes, pos: nat): nat
    requires pos + 2 <= |data|
  {
    FromLE(data[pos..pos + 2])
  }

  function NextRecord(data: bytes, pos: nat): nat
    requires pos + 2 <= |data|
  {
    AlignUp(pos + 2 + RecordLength(data, pos), 2)
  }

  /** From pos on, the records with these offsets follow each other up to the end of the buffer. */
  predicate Tiles(data: bytes, offsets: seq<Word32>, pos: nat)
    decreases |offsets|
  {
    if offsets == [] then pos == |data|
    else offsets[0] == pos && pos + 2 <= |data| && Tiles(data, offsets[1..], NextRecord(data, pos))
  }

  /** n rounded up to an even number. */
  lemma RoundedUp(n: nat)
    ensures AlignUp(n, 2) == n + n % 2
  {
    hide AlignUp;
    AlignUpIs(n, 2);
  }

  /** At an even position of a section that is loaded at an even address, alignment changes nothing:
      the pointer and the offset that the source keeps beside it move alike. */
  lemma ReadRecord(section: Section, pos: nat)
    requires section.address % 2 == 0 && pos % 2 == 0
    ensures section.Read(pos, 2).Some? <==> pos + 2 <= |section.data|
    ensures pos + 2 <= |section.data| ==> section.Read(pos, 2).value == (RecordLength(section.data, pos), pos + 2)
    ensures pos + 2 <= |section.data| ==>
              var end := pos + 2 + RecordLength(section.data, pos);
              section.Aligned(end, 2) == AlignUp(end, 2) == NextRecord(section.data, pos) && AlignUp(end, 2) % 2 == 0
  {
    hide AlignUp, RecordLength, Section.Read;
    ReadEven(section, pos);
    if pos + 2 <= |section.data| {
      var end := pos + 2 + RecordLength(section.data, pos);
      RoundedUp(end);
      RoundedUp(section.address + end);
    }
  }

  lemma ReadEven(section: Section, pos: nat)
    requires section.address % 2 == 0 && pos % 2 == 0
    ensures var r := section.Read(pos, 2);
            if pos + 2 <= |section.data| then r.Some? && r.value == (RecordLength(section.data, pos), pos + 2)
            else r.None?
  {
    hide AlignUp, FromLE;
    RoundedUp(section.address + pos);
  }

  lemma TilesStep(data: bytes, offsets: seq<Word32>, i: nat, pos: nat)
    requires i < |offsets|
    ensures Tiles(data, offsets[i..], pos)
       <==> offsets[i] == pos && pos + 2 <= |data| && Tiles(data, offsets[i + 1..], NextRecord(data, pos))
  {
    assert offsets[i..][0] == offsets[i] && offsets[i..][1..] == offsets[i + 1..];
  }

  /** validate_symbol_table: it accepts exactly the tables whose records tile the buffer. */
  method ValidateSymbolTable(section: Section, offsets: seq<Word32>) returns (ok: bool)
    requires section.address % 2 == 0 && |section.data| < TWO_32
    ensures ok <==> Tiles(section.data, offsets, 0)
  {
    assert offsets[0..] == offsets;
    var strLenAddr: int, buf: nat, i := 0, 0, 0;
    while i < |offsets|
      invariant 0 <= i <= |offsets| && buf % 2 == 0
      invariant strLenAddr == buf % TWO_32
      invariant Tiles(section.data, offsets, 0) <==> Tiles(section.data, offsets[i..], buf)
    {
      TilesStep(section.data, offsets, i, buf);
      ReadRecord(section, buf);
      WrappedIsOutside(buf);
      if offsets[i] != strLenAddr {
        return false;
      }
      var read := section.Read(buf, 2);
      if read.None? {
        return false;
      }
      var (strLen, next) := read.value;
      strLenAddr := AlignUp(strLenAddr + 2 + strLen, 2) % TWO_32;
      buf := section.Aligned(next + strLen, 2);
      i := i + 1;
    }
    NoMoreRecords(section.data, offsets, buf);
    return buf == |section.data|;
  }

  lemma WrappedIsOutside(pos: nat)
    ensures pos < TWO_32 ==> pos % TWO_32 == pos
  {
  }

  lemma NoMoreRecords(data: bytes, offsets: seq<Word32>, pos: nat)
    ensures Tiles(data, offsets[|offsets|..], pos) <==> pos == |data|
  {
  }

  /** Where the records of an accepted table lie. */
  lemma {:induction false} AcceptedOffsets(data: bytes, offsets: seq<Word32>, pos: nat, i: nat)
    requires Tiles(data, offsets, pos) && i < |offsets|
    ensures pos <= offsets[i] && offsets[i] + 2 <= |data|
    ensures offsets[i] + 2 + RecordLength(data, offsets[i]) <= |data|
    ensures NextRecord(data, offsets[i]) == (if i + 1 < |offsets| then offsets[i + 1] else |data|)
    decreases i
  {
    AlignUpGrows(pos + 2 + RecordLength(data, pos), 2);
    if i > 0 {
      AcceptedOffsets(data, offsets[1..], NextRecord(data, pos), i - 1);
    }
  }
}
