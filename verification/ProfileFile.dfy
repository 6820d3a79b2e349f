/// A reader of the whole file, which finds everything by the numbers of the
/// header, at the positions of the fields.
module ProfileFile {
  import opened Wrappers
  import opened Buffers
  import opened Bytes
  import opened ValueProfile
  import opened ProfileImage

  /** What a record of the file says. */
  datatype Fields = Fields(funcMd5: nat, funcHash: nat, offsetCounters: nat, funcPtr: nat, valuesPtr: nat,
                           numCounters: nat, sites0: nat, sites1: nat)

  type Kinds = seq<(nat, seq<seq<Entry>>)>

  datatype Profile = Profile(records: seq<Fields>, counters: bytes, names: bytes, values: seq<Kinds>)

  /** The number of n bytes at a position. */
  function At(b: bytes, pos: nat, n: nat): nat
    requires pos + n <= |b|
  {
    FromLE(b[pos..pos + n])
  }

  function ReadRecord(b: bytes, pos: nat): Fields
    requires pos + 48 <= |b|
  {
    Fields(At(b, pos, 8), At(b, pos + 8, 8), At(b, pos + 16, 8), At(b, pos + 24, 8), At(b, pos + 32, 8),
           At(b, pos + 40, 4), At(b, pos + 44, 2), At(b, pos + 46, 2))
  }

  /** The value data of a record, if it has sites. */
  function ReadRecordValues(b: bytes, f: Fields): Option<(Kinds, bytes)> {
    if f.sites0 == 0 && f.sites1 == 0 then Some(([], b)) else ReadValueData(b)
  }

  function ReadValues(b: bytes, records: seq<Fields>): Option<(seq<Kinds>, bytes)> {
    if records == [] then Some(([], b))
    else
      match ReadRecordValues(b, records[0])
      case None => None
      case Some((kinds, rest)) =>
        match ReadValues(rest, records[1..])
        case None => None
        case Some((others, end)) => Some(([kinds] + others, end))
  }

  /** Magic number, version 8 with the flags of an IR and a memory profile, the number of records at 24, of
      counters at 40, the size of the names at 56 and the distance to the counters at 64. */
  function ReadProfile(b: bytes): Option<(Profile, bytes)> {
    if |b| < 88 || At(b, 0, 8) != 0xFF6C_7072_6F66_7281 || At(b, 8, 8) != 8 + 0x100_0000_0000_0000 + 0x4000_0000_0000_0000
    then None
    else
      var numRecords, numCounters, namesSize := At(b, 24, 8), At(b, 40, 8), At(b, 56, 8);
      var counters := 88 + At(b, 64, 8);
      var names := counters + 8 * numCounters;
      var values := AlignUp(names + namesSize, 8);
      AlignUpGrows(names + namesSize, 8);
      if 88 + 48 * numRecords > |b| || values > |b| || At(b, 16, 8) + At(b, 32, 8) + At(b, 48, 8) + At(b, 72, 8) != 0
         || At(b, 80, 8) != 1
      then None
      else
        var records := seq(numRecords, k requires 0 <= k < numRecords => ReadRecord(b, 88 + 48 * k));
        match ReadValues(b[values..], records)
        case None => None
        case Some((lists, rest)) => Some((Profile(records, b[counters..names], b[names..names + namesSize], lists), rest))
  }

  // What was written

  function FieldsOf(records: seq<Record>): seq<Fields> {
    seq(|records|, k requires 0 <= k < |records| =>
      var d := records[k];
      Fields(d.funcMd5, d.funcHash, OffsetCounters(records, k, |records|), d.funcPtr, d.valuesPtr, d.numCounters,
             d.sites0, d.sites1))
  }

  function AllKinds(records: seq<Record>): seq<Kinds>
    requires forall d <- records :: d.Valid()
  {
    seq(|records|, k requires 0 <= k < |records| => KindsOf(records[k]))
  }

  /** Every number fits its field. */
  predicate Storable(d: Record)
    requires d.Valid()
  {
    ValueSize(d) < TWO_32 && forall l <- d.Lists(0) + d.Lists(1) :: |l| < 256
  }

  // Reading it back

  lemma WordIn(front: bytes, ws: seq<nat>, back: bytes, k: nat)
    requires k < |ws| && ws[k] < TWO_64
    ensures At(front + (Words(ws) + back), |front| + 8 * k, 8) == ws[k]
  {
    hide Words, LE, FromLE;
    WordsAt(ws, k);
    SliceOfFront(Words(ws), back, 8 * k, 8 * k + 8);
    SliceBehind(front, Words(ws) + back, 8 * k, 8 * k + 8);
    WordBack(ws[k]);
  }

  lemma NumberIn(front: bytes, v: nat, n: nat, back: bytes)
    requires v < Pow256(n)
    ensures At(front + (LE(v, n) + back), |front|, n) == v
  {
    hide LE, FromLE;
    SliceOfFront(LE(v, n), back, 0, n);
    SliceBehind(front, LE(v, n) + back, 0, n);
    FromLEUndoesLE(v, n);
  }

  lemma RecordIn(front: bytes, d: Record, offset: nat, back: bytes)
    requires offset < TWO_64
    ensures ReadRecord(front + (RecordImage(d, offset) + back), |front|)
         == Fields(d.funcMd5, d.funcHash, offset, d.funcPtr, d.valuesPtr, d.numCounters, d.sites0, d.sites1)
  {
    hide LE, FromLE, Words, At;
    var ws: seq<nat> := [d.funcMd5, d.funcHash, offset, d.funcPtr, d.valuesPtr];
    var n, s0, s1 := LE(d.numCounters, 4), LE(d.sites0, 2), LE(d.sites1, 2);
    var b := front + (RecordImage(d, offset) + back);
    SmallFields(front, Words(ws), n, s0, s1, back);
    WordSizes();
    WordIn(front, ws, n + s0 + s1 + back, 0);
    WordIn(front, ws, n + s0 + s1 + back, 1);
    WordIn(front, ws, n + s0 + s1 + back, 2);
    WordIn(front, ws, n + s0 + s1 + back, 3);
    WordIn(front, ws, n + s0 + s1 + back, 4);
    NumberIn(front + Words(ws), d.numCounters, 4, s0 + s1 + back);
    NumberIn(front + Words(ws) + n, d.sites0, 2, s1 + back);
    NumberIn(front + Words(ws) + n + s0, d.sites1, 2, back);
  }

  lemma SmallFields(front: bytes, ws: bytes, n: bytes, s0: bytes, s1: bytes, back: bytes)
    ensures var b := front + (ws + n + s0 + s1 + back);
            && b == front + (ws + (n + s0 + s1 + back))
            && b == front + ws + (n + (s0 + s1 + back))
            && b == front + ws + n + (s0 + (s1 + back))
            && b == front + ws + n + s0 + (s1 + back)
  {
  }

  lemma SplitAt(b: bytes, i: nat, j: nat)
    requires i <= j <= |b|
    ensures b == b[..i] + (b[i..j] + b[j..])
  {
  }

  lemma RecordRead(b: bytes, records: seq<Record>, k: nat)
    requires k < |records| && 88 + 48 * |records| <= |b|
    requires b[88..88 + 48 * |records|] == RecordsImage(records, |records|, |records|)
    requires OffsetCounters(records, k, |records|) < TWO_64
    ensures ReadRecord(b, 88 + 48 * k) == FieldsOf(records)[k]
  {
    hide RecordImage, RecordsImage, OffsetCounters, ReadRecord, FieldsOf;
    var at := 88 + 48 * k;
    RecordAt(records, |records|, k);
    SliceOfSlice(b, 88, 48 * |records|, 48 * k, 48 * (k + 1));
    SplitAt(b, at, at + 48);
    RecordIn(b[..at], records[k], OffsetCounters(records, k, |records|), b[at + 48..]);
    FieldsAt(records, k);
  }

  lemma FieldsAt(records: seq<Record>, k: nat)
    requires k < |records|
    ensures var d := records[k];
            |FieldsOf(records)| == |records| && FieldsOf(records)[k]
            == Fields(d.funcMd5, d.funcHash, OffsetCounters(records, k, |records|), d.funcPtr, d.valuesPtr,
                      d.numCounters, d.sites0, d.sites1)
  {
    hide OffsetCounters;
  }

  lemma {:induction false} CountersUpTo(records: seq<Record>, k: nat)
    requires k <= |records|
    ensures NumCounters(records[..k]) <= NumCounters(records)
  {
    var n := |records| - 1;
    if k <= n {
      CountersUpTo(records[..n], k);
      assert records[..n][..k] == records[..k];
    } else {
      assert records[..k] == records;
    }
  }

  lemma OffsetFits(records: seq<Record>, k: nat)
    requires k < |records|
    ensures OffsetCounters(records, k, |records|) <= 48 * |records| + 8 * NumCounters(records)
  {
    CountersUpTo(records, k);
  }

  lemma {:induction false} ValuesInFront(records: seq<Record>, was: bytes, pos: nat)
    requires records != [] && (forall d <- records :: d.Valid()) && pos + ValuesSize(records) <= |was|
    ensures var d, rest := records[0], records[1..];
            && ValuesSize(records) == ValueSize(d) + ValuesSize(rest)
            && ValuesImage(records, was, pos) == ValueImage(d, was, pos) + ValuesImage(rest, was, pos + ValueSize(d))
  {
    hide ValueImage, ValueSize, ValuesImage, ValuesSize;
    var n, d, rest := |records| - 1, records[0], records[1..];
    var front, last := records[..n], records[n];
    ValuesLast(records, was, pos);
    if n > 0 {
      var next := pos + ValueSize(d);
      assert front[1..] == rest[..n - 1] && rest[n - 1] == last;
      ValuesInFront(front, was, pos);
      SizeLast(records);
      SizeLast(rest);
      ValuesLast(rest, was, next);
      Regroup3(ValueImage(d, was, pos), ValuesImage(rest[..n - 1], was, next),
               ValueImage(last, was, pos + ValuesSize(front)));
    } else {
      NoValues(was, pos);
      NoValues(was, pos + ValueSize(d));
      assert rest == [] && front == [];
      assert [] + ValueImage(d, was, pos) == ValueImage(d, was, pos) == ValueImage(d, was, pos) + [];
    }
  }

  lemma ValuesLast(records: seq<Record>, was: bytes, pos: nat)
    requires records != [] && (forall d <- records :: d.Valid()) && pos + ValuesSize(records) <= |was|
    ensures var front, last := records[..|records| - 1], records[|records| - 1];
            && ValuesSize(records) == ValuesSize(front) + ValueSize(last)
            && ValuesImage(records, was, pos)
               == ValuesImage(front, was, pos) + ValueImage(last, was, pos + ValuesSize(front))
  {
    hide ValueImage, ValueSize;
  }

  lemma SizeLast(records: seq<Record>)
    requires records != [] && forall d <- records :: d.Valid()
    ensures ValuesSize(records) == ValuesSize(records[..|records| - 1]) + ValueSize(records[|records| - 1])
  {
    hide ValueSize;
  }

  lemma NoValues(was: bytes, pos: nat)
    requires pos <= |was|
    ensures ValuesSize([]) == 0 && ValuesImage([], was, pos) == []
  {
  }

  lemma {:induction false} ReadValuesBack(records: seq<Record>, fields: seq<Fields>, was: bytes, pos: nat, rest: bytes)
    requires (forall d <- records :: d.Valid() && Storable(d)) && pos + ValuesSize(records) <= |was|
    requires |fields| == |records|
    requires forall k | 0 <= k < |records| ::
               fields[k].sites0 == records[k].sites0 && fields[k].sites1 == records[k].sites1
    ensures ReadValues(ValuesImage(records, was, pos) + rest, fields) == Some((AllKinds(records), rest))
    decreases |records|
  {
    hide ValueImage, ValueSize, ReadRecordValues, KindsOf, Storable;
    if records == [] {
      assert ValuesImage(records, was, pos) + rest == rest;
    } else {
      var d, others := records[0], records[1..];
      ValuesInFront(records, was, pos);
      var next := pos + ValueSize(d);
      ReadValuesBack(others, fields[1..], was, next, rest);
      RecordValuesBack(d, fields[0], was, pos, ValuesImage(others, was, next) + rest);
      Regroup3(ValueImage(d, was, pos), ValuesImage(others, was, next), rest);
      assert AllKinds(records) == [KindsOf(d)] + AllKinds(others);
    }
  }

  lemma RecordValuesBack(d: Record, f: Fields, was: bytes, pos: nat, rest: bytes)
    requires d.Valid() && Storable(d) && pos + ValueSize(d) <= |was|
    requires f.sites0 == d.sites0 && f.sites1 == d.sites1
    ensures ReadRecordValues(ValueImage(d, was, pos) + rest, f) == Some((KindsOf(d), rest))
  {
    hide KindImage, KindSize;
    if d.sites0 == 0 && d.sites1 == 0 {
      assert ValueImage(d, was, pos) + rest == rest;
      assert d.Lists(0) == [] && d.Lists(1) == [] && KindsOf(d) == [];
    } else {
      ReadValueDataBack(d, was, pos, rest);
    }
  }

  lemma HeaderRead(b: bytes, n: nat, c: nat, m: nat, back: bytes)
    requires b == HeaderImage(n, c, m) + back && 48 * n < TWO_64 && c < TWO_64 && m < TWO_64
    ensures |b| >= 88 && At(b, 0, 8) == MAGIC && At(b, 8, 8) == VERSION
    ensures At(b, 16, 8) == 0 && At(b, 24, 8) == n && At(b, 32, 8) == 0 && At(b, 40, 8) == c && At(b, 48, 8) == 0
    ensures At(b, 56, 8) == m && At(b, 64, 8) == 48 * n && At(b, 72, 8) == 0 && At(b, 80, 8) == 1
  {
    hide Words, At;
    var ws: seq<nat> := [MAGIC, VERSION, 0, n, 0, c, 0, m, RECORD_SIZE * n, 0, 1];
    assert b == [] + (Words(ws) + back);
    WordIn([], ws, back, 0);
    WordIn([], ws, back, 1);
    WordIn([], ws, back, 2);
    WordIn([], ws, back, 3);
    WordIn([], ws, back, 4);
    WordIn([], ws, back, 5);
    WordIn([], ws, back, 6);
    WordIn([], ws, back, 7);
    WordIn([], ws, back, 8);
    WordIn([], ws, back, 9);
    WordIn([], ws, back, 10);
  }

  lemma ValuesPosition(names: nat, size: nat)
    requires names % 8 == 0
    ensures AlignUp(names + size, 8) == names + size + Pad8(size)
  {
    hide AlignUp;
    AlignUpIs(names + size, 8);
  }

  /** The five parts behind the header, and what follows the file. */
  lemma Pieces(b: bytes, h: bytes, r: bytes, c: bytes, names: bytes, zeros: bytes, values: bytes, rest: bytes)
    requires b == h + (r + (c + (names + zeros + values))) + rest
    ensures var i, j := |h| + |r|, |h| + |r| + |c|;
            var v := j + |names| + |zeros|;
            && v <= |b| && b == h + (r + (c + (names + zeros + (values + rest))))
            && b[|h|..i] == r && b[i..j] == c && b[j..j + |names|] == names && b[v..] == values + rest
  {
    var behind := values + rest;
    FiveGroups(h, r, c, names, zeros, values, rest);
    Piece(b, h, r, c + (names + zeros + behind));
    Piece(b, h + r, c, names + zeros + behind);
    Piece(b, h + r + c, names, zeros + behind);
    Piece(b, h + r + c + names, zeros, behind);
  }

  lemma Piece(b: bytes, front: bytes, x: bytes, back: bytes)
    requires b == front + (x + back)
    ensures |front| + |x| <= |b| && b[|front|..|front| + |x|] == x && b[|front| + |x|..] == back
  {
  }

  lemma FiveGroups(h: bytes, r: bytes, c: bytes, names: bytes, zeros: bytes, values: bytes, rest: bytes)
    ensures var b, behind := h + (r + (c + (names + zeros + values))) + rest, values + rest;
            && b == h + (r + (c + (names + zeros + behind)))
            && b == h + r + (c + (names + zeros + behind))
            && b == h + r + c + (names + (zeros + behind))
            && b == h + r + c + names + (zeros + behind)
  {
    var behind := values + rest;
    assert names + zeros + values + rest == names + zeros + behind == names + (zeros + behind);
    Regroup3(h, r + (c + (names + zeros + values)), rest);
    Regroup3(r, c + (names + zeros + values), rest);
    Regroup3(c, names + zeros + values, rest);
    Regroup3(h, r, c + (names + zeros + behind));
    Regroup3(h + r, c, names + zeros + behind);
    Regroup3(h + r + c, names, zeros + behind);
  }

  /** A reader of the file gets back the fields of every record, the counters, the names and all value
      lists, whatever follows the file. */
  lemma ImageIsRead(sections: seq<Section>, was: bytes, rest: bytes)
    requires Valid(sections) && CountersSizeMatches(sections) && TotalSize(sections) <= |was|
    requires TotalSize(sections) < TWO_64 && forall d <- Records(sections) :: Storable(d)
    ensures var records := Records(sections);
            ReadProfile(Image(sections, was) + rest)
            == Some((Profile(FieldsOf(records), Concat(CounterSections(sections)), NamesOf(sections), AllKinds(records)),
                     rest))
  {
    hide Records, CounterSections, NamesOf, NumCounters, Concat, ValuesImage, ValuesSize, RecordsImage, HeaderImage,
         Image, OffsetCounters, ReadRecord, ReadValues, At, AlignUp, Storable, Pad8;
    var records, counters, names := Records(sections), Concat(CounterSections(sections)), NamesOf(sections);
    var n, c, m := |records|, NumCounters(records), |names|;
    var h, r := HeaderImage(n, c, m), RecordsImage(records, n, n);
    var zeros, values := seq(Pad8(m), _ => 0 as byte), ValuesImage(records, was, FixedSize(sections));
    var tail := ImageParts(sections, was);
    var b := Image(sections, was) + rest;
    Pieces(b, h, r, counters, names, zeros, values, rest);
    HeaderRead(b, n, c, m, r + (counters + (names + zeros + (values + rest))));
    ValuesPosition(88 + 48 * n + 8 * c, m);
    forall k | 0 <= k < n
      ensures ReadRecord(b, 88 + 48 * k) == FieldsOf(records)[k]
    {
      OffsetFits(records, k);
      RecordRead(b, records, k);
    }
    assert seq(n, k requires 0 <= k < n => ReadRecord(b, 88 + 48 * k)) == FieldsOf(records);
    ReadValuesBack(records, FieldsOf(records), was, FixedSize(sections), rest);
  }

  /** The lists of both kinds are the array of the record cut in two: empty if it has none. */
  lemma ListsAreTheArray(d: Record)
    requires d.Valid()
    ensures |d.Lists(0)| == d.sites0 && |d.Lists(1)| == d.sites1
    ensures d.values.Some? ==> d.Lists(0) + d.Lists(1) == d.values.value
    ensures d.values.None? ==> forall l <- d.Lists(0) + d.Lists(1) :: l == []
  {
  }
}
