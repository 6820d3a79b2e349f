/// The file llvm-profdata reads: the size of a dump, its bytes, and a reader
/// that gets the value lists back.
module ProfileImage {
  import opened Wrappers
  import opened Buffers
  import opened Bytes
  import opened ValueProfile

  const HEADER_SIZE := 88
  const RECORD_SIZE := 48

  /** The record of one function.  `values` is the array of its value lists, all sites of the first
      kind and then all of the second, or a null pointer. */
  datatype Record = Record(funcMd5: Word64, funcHash: Word64, funcPtr: Word64, valuesPtr: Word64,
                           numCounters: Word32, sites0: Word16, sites1: Word16,
                           values: Option<seq<seq<Entry>>>) {
    predicate Valid() {
      values.Some? ==> |values.value| == sites0 + sites1
    }

    function Sites(kind: nat): Word16 {
      if kind == 0 then sites0 else sites1
    }

    /** The value lists of one kind, one for each site. */
    function Lists(kind: nat): (lists: seq<seq<Entry>>)
      requires Valid()
      ensures |lists| == Sites(kind)
    {
      if values.None? then seq(Sites(kind), _ => [])
      else if kind == 0 then values.value[..sites0]
      else values.value[sites0..]
    }
  }

  /** A data section of the module, told apart by its name. */
  datatype Section = Data(record: Record) | Counters(data: bytes) | Names(data: bytes) | Other

  predicate Valid(sections: seq<Section>) {
    forall s <- sections | s.Data? :: s.record.Valid()
  }

  function Records(sections: seq<Section>): (r: seq<Record>)
    ensures Valid(sections) ==> forall d <- r :: d.Valid()
  {
    if sections == [] then []
    else
      var n := |sections| - 1;
      assert sections[n] in sections;
      Records(sections[..n]) + (if sections[n].Data? then [sections[n].record] else [])
  }

  function CounterSections(sections: seq<Section>): seq<bytes> {
    if sections == [] then []
    else
      var n := |sections| - 1;
      CounterSections(sections[..n]) + (if sections[n].Counters? then [sections[n].data] else [])
  }

  /** The last names section counts. */
  function NamesOf(sections: seq<Section>): bytes {
    if sections == [] then []
    else
      var n := |sections| - 1;
      if sections[n].Names? then sections[n].data else NamesOf(sections[..n])
  }

  function NumCounters(records: seq<Record>): nat {
    if records == [] then 0 else NumCounters(records[..|records| - 1]) + records[|records| - 1].numCounters
  }

  function Pad8(n: nat): (p: nat)
    ensures p < 8 && (n + p) % 8 == 0
  {
    (8 - n % 8) % 8
  }

  function NumNodes(lists: seq<seq<Entry>>): nat {
    if lists == [] then 0 else NumNodes(lists[..|lists| - 1]) + |lists[|lists| - 1]|
  }

  /** Kind and number of sites, one count for each site, padding, and a pair of words for each node. */
  function KindSize(lists: seq<seq<Entry>>): nat {
    if lists == [] then 0 else 8 + |lists| + Pad8(|lists|) + 16 * NumNodes(lists)
  }

  function ValueSize(d: Record): nat
    requires d.Valid()
  {
    if d.sites0 == 0 && d.sites1 == 0 then 0 else 8 + KindSize(d.Lists(0)) + KindSize(d.Lists(1))
  }

  function ValuesSize(records: seq<Record>): nat
    requires forall d <- records :: d.Valid()
  {
    if records == [] then 0
    else ValuesSize(records[..|records| - 1]) + ValueSize(records[|records| - 1])
  }

  predicate CountersSizeMatches(sections: seq<Section>) {
    |Concat(CounterSections(sections))| == 8 * NumCounters(Records(sections))
  }

  /** What the size pass tells the writing pass: nothing if the sizes of the counters do not match. */
  datatype Figures = Figures(numRecords: nat, numCounters: nat, names: bytes)

  function Given(sections: seq<Section>): Figures {
    if CountersSizeMatches(sections)
    then Figures(|Records(sections)|, NumCounters(Records(sections)), NamesOf(sections))
    else Figures(0, 0, [])
  }

  /** Everything in front of the value data. */
  function FixedSize(sections: seq<Section>): nat {
    var names := Given(sections).names;
    HEADER_SIZE + |Records(sections)| * RECORD_SIZE + |Concat(CounterSections(sections))| + |names| + Pad8(|names|)
  }

  /** What the writing pass writes. */
  function TotalSize(sections: seq<Section>): nat
    requires Valid(sections)
  {
    FixedSize(sections) + ValuesSize(Records(sections))
  }

  // The bytes

  function Counts(lists: seq<seq<Entry>>): (b: bytes)
    ensures |b| == |lists|
  {
    seq(|lists|, i requires 0 <= i < |lists| => |lists[i]| % 256)
  }

  function Pairs(list: seq<Entry>): (b: bytes)
    ensures |b| == 16 * |list|
  {
    if list == [] then []
    else
      var e := list[|list| - 1];
      Pairs(list[..|list| - 1]) + LE(e.value, 8) + LE(e.count, 8)
  }

  function AllPairs(lists: seq<seq<Entry>>): (b: bytes)
    ensures |b| == 16 * NumNodes(lists)
  {
    if lists == [] then [] else AllPairs(lists[..|lists| - 1]) + Pairs(lists[|lists| - 1])
  }

  /** The value data of one kind.  The padding is skipped over: it keeps the bytes of `gap`. */
  function KindImage(kind: nat, lists: seq<seq<Entry>>, gap: bytes): (b: bytes)
    requires |gap| == Pad8(|lists|)
    ensures |b| == KindSize(lists)
  {
    if lists == [] then [] else LE(kind, 4) + LE(|lists|, 4) + Counts(lists) + gap + AllPairs(lists)
  }

  /** The bytes the buffer held where one kind's padding goes. */
  function Gap(lists: seq<seq<Entry>>, was: bytes, pos: nat): (gap: bytes)
    requires pos + KindSize(lists) <= |was|
    ensures |gap| == Pad8(|lists|)
  {
    if lists == [] then [] else was[pos + 8 + |lists|..pos + 8 + |lists| + Pad8(|lists|)]
  }

  /** The value data of a record that goes to position pos of a buffer that held `was`. */
  function ValueImage(d: Record, was: bytes, pos: nat): (b: bytes)
    requires d.Valid() && pos + ValueSize(d) <= |was|
    ensures |b| == ValueSize(d)
  {
    if d.sites0 == 0 && d.sites1 == 0 then []
    else
      var pos1 := pos + 8 + KindSize(d.Lists(0));
      LE(ValueSize(d), 4) + LE(if d.sites0 > 0 && d.sites1 > 0 then 2 else 1, 4)
      + KindImage(0, d.Lists(0), Gap(d.Lists(0), was, pos + 8))
      + KindImage(1, d.Lists(1), Gap(d.Lists(1), was, pos1))
  }

  function ValuesImage(records: seq<Record>, was: bytes, pos: nat): (b: bytes)
    requires (forall d <- records :: d.Valid()) && pos + ValuesSize(records) <= |was|
    ensures |b| == ValuesSize(records)
  {
    if records == [] then []
    else
      var front := records[..|records| - 1];
      ValuesImage(front, was, pos) + ValueImage(records[|records| - 1], was, pos + ValuesSize(front))
  }

  const MAGIC: Word64 := 0xFF6C_7072_6F66_7281
  const VERSION: Word64 := 0x4100_0000_0000_0008

  /** 64-bit words one behind the other. */
  function Words(ws: seq<nat>): (b: bytes)
    ensures |b| == 8 * |ws|
  {
    if ws == [] then [] else Words(ws[..|ws| - 1]) + LE(ws[|ws| - 1], 8)
  }

  lemma {:induction false} WordsAt(ws: seq<nat>, k: nat)
    requires k < |ws|
    ensures Words(ws)[8 * k..8 * k + 8] == LE(ws[k], 8)
  {
    hide LE;
    var n := |ws| - 1;
    if k < n {
      WordsAt(ws[..n], k);
      SliceOfFront(Words(ws[..n]), LE(ws[n], 8), 8 * k, 8 * k + 8);
    } else {
      SliceBehind(Words(ws[..n]), LE(ws[n], 8), 0, 8);
    }
  }

  function HeaderImage(numRecords: nat, numCounters: nat, namesSize: nat): (b: bytes)
    ensures |b| == HEADER_SIZE
  {
    Words([MAGIC, VERSION, 0, numRecords, 0, numCounters, 0, namesSize, RECORD_SIZE * numRecords, 0, 1])
  }

  /** A 64-bit word; a negative number wraps round. */
  function AsWord(n: int): nat { if n < 0 then n % TWO_64 else n }

  /** From its own position to its counters, if there are numRecords records: over the records left, and
      the counters before its own. */
  function OffsetCounters(records: seq<Record>, k: nat, numRecords: nat): nat
    requires k < |records|
  {
    AsWord(RECORD_SIZE * (numRecords - k) + 8 * NumCounters(records[..k]))
  }

  function RecordImage(d: Record, offset: nat): (b: bytes)
    ensures |b| == RECORD_SIZE
  {
    Words([d.funcMd5, d.funcHash, offset, d.funcPtr, d.valuesPtr])
    + LE(d.numCounters, 4) + LE(d.sites0, 2) + LE(d.sites1, 2)
  }

  /** The first n records. */
  function RecordsImage(records: seq<Record>, n: nat, numRecords: nat): (b: bytes)
    requires n <= |records|
    ensures |b| == n * RECORD_SIZE
  {
    if n == 0 then []
    else
      RecordsImage(records, n - 1, numRecords) + RecordImage(records[n - 1], OffsetCounters(records, n - 1, numRecords))
  }

  function FixedImage(sections: seq<Section>): (b: bytes)
    ensures |b| == FixedSize(sections)
  {
    var records, Figures(numRecords, numCounters, names) := Records(sections), Given(sections);
    HeaderImage(numRecords, numCounters, |names|) + RecordsImage(records, |records|, numRecords)
    + Concat(CounterSections(sections)) + names + seq(Pad8(|names|), _ => 0)
  }

  /** The whole dump into a buffer that held `was`. */
  function Image(sections: seq<Section>, was: bytes): (b: bytes)
    requires Valid(sections) && TotalSize(sections) <= |was|
    ensures |b| == TotalSize(sections)
  {
    FixedImage(sections) + ValuesImage(Records(sections), was, FixedSize(sections))
  }

  // Reading it back

  /** The n nodes at the front of b, and what is left; nothing if b is too short. */
  function ReadPairs(b: bytes, n: nat): Option<(seq<Entry>, bytes)> {
    if |b| < 16 * n then None
    else Some((seq(n, i requires 0 <= i < n => EntryAt(b, 16 * i)), b[16 * n..]))
  }

  function EntryAt(b: bytes, pos: nat): Entry
    requires pos + 16 <= |b|
  {
    WordAt(b, pos); WordAt(b, pos + 8);
    Entry(FromLE(b[pos..pos + 8]), FromLE(b[pos + 8..pos + 16]))
  }

  lemma WordAt(b: bytes, pos: nat)
    requires pos + 8 <= |b|
    ensures FromLE(b[pos..pos + 8]) < TWO_64
  {
    FromLEBound(b[pos..pos + 8]);
    WordSizes();
  }

  /** The lists whose lengths are given, one after the other. */
  function ReadLists(b: bytes, counts: bytes): Option<(seq<seq<Entry>>, bytes)> {
    if counts == [] then Some(([], b))
    else
      match ReadPairs(b, counts[0])
      case None => None
      case Some((list, rest)) =>
        match ReadLists(rest, counts[1..])
        case None => None
        case Some((lists, rest')) => Some(([list] + lists, rest'))
  }

  /** One kind: its number, its lists, and what is left. */
  function ReadKind(b: bytes): Option<(nat, seq<seq<Entry>>, bytes)> {
    if |b| < 8 then None
    else
      var n := FromLE(b[4..8]);
      if |b| < 8 + n + Pad8(n) then None
      else
        match ReadLists(b[8 + n + Pad8(n)..], b[8..8 + n])
        case None => None
        case Some((lists, rest)) => Some((FromLE(b[..4]), lists, rest))
  }

  function ReadKinds(b: bytes, n: nat): Option<seq<(nat, seq<seq<Entry>>)>>
    decreases n
  {
    if n == 0 then if b == [] then Some([]) else None
    else
      match ReadKind(b)
      case None => None
      case Some((kind, lists, rest)) =>
        match ReadKinds(rest, n - 1)
        case None => None
        case Some(kinds) => Some([(kind, lists)] + kinds)
  }

  /** The value data of one record, delimited by its own size field: the kinds with their lists, and
      the bytes behind it. */
  function ReadValueData(b: bytes): Option<(seq<(nat, seq<seq<Entry>>)>, bytes)> {
    if |b| < 8 then None
    else
      var size := FromLE(b[..4]);
      if size < 8 || size > |b| then None
      else
        match ReadKinds(b[8..size], FromLE(b[4..8]))
        case None => None
        case Some(kinds) => Some((kinds, b[size..]))
  }

  lemma {:induction false} PairsAt(list: seq<Entry>, i: nat)
    requires i < |list|
    ensures Pairs(list)[16 * i..16 * i + 8] == LE(list[i].value, 8)
    ensures Pairs(list)[16 * i + 8..16 * i + 16] == LE(list[i].count, 8)
  {
    var n := |list| - 1;
    var front := Pairs(list[..n]);
    assert Pairs(list) == front + LE(list[n].value, 8) + LE(list[n].count, 8);
    if i < n {
      PairsAt(list[..n], i);
      assert Pairs(list)[16 * i..16 * i + 8] == front[16 * i..16 * i + 8];
      assert Pairs(list)[16 * i + 8..16 * i + 16] == front[16 * i + 8..16 * i + 16];
    }
  }

  lemma WordBack(w: Word64)
    ensures FromLE(LE(w, 8)) == w
  {
    WordSizes();
    FromLEUndoesLE(w, 8);
  }

  lemma EntryBack(list: seq<Entry>, rest: bytes, i: nat)
    requires i < |list|
    ensures EntryAt(Pairs(list) + rest, 16 * i) == list[i]
  {
    PairsAt(list, i);
    WordBack(list[i].value);
    WordBack(list[i].count);
    SliceOfFront(Pairs(list), rest, 16 * i, 16 * i + 8);
    SliceOfFront(Pairs(list), rest, 16 * i + 8, 16 * i + 16);
  }

  lemma ReadPairsBack(list: seq<Entry>, rest: bytes)
    ensures ReadPairs(Pairs(list) + rest, |list|) == Some((list, rest))
  {
    hide Pairs, EntryAt;
    var b := Pairs(list) + rest;
    var read := ReadPairs(b, |list|).value.0;
    forall i | 0 <= i < |list|
      ensures read[i] == list[i]
    {
      EntryBack(list, rest, i);
    }
    assert read == list;
    assert b[16 * |list|..] == rest;
  }

  lemma {:induction false} AllPairsFront(lists: seq<seq<Entry>>)
    requires lists != []
    ensures AllPairs(lists) == Pairs(lists[0]) + AllPairs(lists[1..])
  {
    var n := |lists| - 1;
    if n > 0 {
      AllPairsFront(lists[..n]);
      assert lists[..n][1..] == lists[1..][..n - 1];
    }
  }

  lemma {:induction false} ReadListsBack(lists: seq<seq<Entry>>, rest: bytes)
    requires forall l <- lists :: |l| < 256
    ensures ReadLists(AllPairs(lists) + rest, Counts(lists)) == Some((lists, rest))
  {
    hide ReadPairs, AllPairs, Pairs, Counts;
    if lists == [] {
      NoLists(rest);
    } else {
      var after := AllPairs(lists[1..]) + rest;
      AllPairsFront(lists);
      CountsFront(lists);
      Regroup3(Pairs(lists[0]), AllPairs(lists[1..]), rest);
      ReadPairsBack(lists[0], after);
      ReadListsBack(lists[1..], rest);
      assert lists == [lists[0]] + lists[1..];
    }
  }

  lemma NoLists(rest: bytes)
    ensures AllPairs([]) + rest == rest && Counts([]) == []
  {
  }

  lemma CountsFront(lists: seq<seq<Entry>>)
    requires lists != [] && |lists[0]| < 256
    ensures Counts(lists) == [|lists[0]|] + Counts(lists[1..])
  {
  }

  lemma ReadKindBack(kind: nat, lists: seq<seq<Entry>>, gap: bytes, rest: bytes)
    requires lists != [] && |gap| == Pad8(|lists|) && kind < TWO_32 && |lists| < TWO_32
    requires forall l <- lists :: |l| < 256
    ensures ReadKind(KindImage(kind, lists, gap) + rest) == Some((kind, lists, rest))
  {
    hide LE, FromLE, AllPairs, Counts, ReadLists, Pad8;
    var n, pairs := |lists|, AllPairs(lists);
    var b := KindImage(kind, lists, gap) + rest;
    var head := LE(kind, 4) + LE(n, 4);
    assert b == head + Counts(lists) + gap + (pairs + rest);
    assert head[..4] == LE(kind, 4) && head[4..] == LE(n, 4);
    assert b[..4] == head[..4] && b[4..8] == head[4..];
    assert b[8..8 + n] == Counts(lists);
    assert b[8 + n + Pad8(n)..] == pairs + rest;
    Word32Back(kind);
    Word32Back(n);
    ReadListsBack(lists, rest);
  }

  /** What a reader is to find in the value data of a record: the kinds that have sites. */
  function KindsOf(d: Record): seq<(nat, seq<seq<Entry>>)>
    requires d.Valid()
  {
    Present(0, d.Lists(0)) + Present(1, d.Lists(1))
  }

  lemma ReadOneKind(b: bytes, kind: nat, lists: seq<seq<Entry>>, rest: bytes, n: nat)
    requires ReadKind(b) == Some((kind, lists, rest)) && n > 0
    ensures ReadKinds(b, n) == match ReadKinds(rest, n - 1)
                               case None => None
                               case Some(kinds) => Some([(kind, lists)] + kinds)
  {
  }

  lemma ReadKindsBack(d: Record, gap0: bytes, gap1: bytes)
    requires d.Valid() && |gap0| == Pad8(d.sites0) && |gap1| == Pad8(d.sites1)
    requires forall l <- d.Lists(0) + d.Lists(1) :: |l| < 256
    ensures ReadKinds(KindImage(0, d.Lists(0), gap0) + KindImage(1, d.Lists(1), gap1), |KindsOf(d)|)
         == Some(KindsOf(d))
  {
    var l0, l1 := d.Lists(0), d.Lists(1);
    assert (forall l <- l0 :: l in l0 + l1) && (forall l <- l1 :: l in l0 + l1);
    ReadTwoKinds(l0, l1, gap0, gap1);
  }

  /** One kind, if it has sites. */
  function Present(kind: nat, lists: seq<seq<Entry>>): seq<(nat, seq<seq<Entry>>)> {
    if lists == [] then [] else [(kind, lists)]
  }

  lemma ReadPresentKind(kind: nat, lists: seq<seq<Entry>>, gap: bytes, rest: bytes, others: seq<(nat, seq<seq<Entry>>)>)
    requires |gap| == Pad8(|lists|) && kind < TWO_32 && |lists| < TWO_32 && forall l <- lists :: |l| < 256
    requires ReadKinds(rest, |others|) == Some(others)
    ensures ReadKinds(KindImage(kind, lists, gap) + rest, |Present(kind, lists) + others|)
         == Some(Present(kind, lists) + others)
  {
    if lists == [] {
      assert KindImage(kind, lists, gap) + rest == rest;
      assert Present(kind, lists) + others == others;
    } else {
      ReadKindBack(kind, lists, gap, rest);
      ReadOneKind(KindImage(kind, lists, gap) + rest, kind, lists, rest, 1 + |others|);
    }
  }

  lemma ReadTwoKinds(l0: seq<seq<Entry>>, l1: seq<seq<Entry>>, gap0: bytes, gap1: bytes)
    requires |gap0| == Pad8(|l0|) && |gap1| == Pad8(|l1|) && |l0| < TWO_32 && |l1| < TWO_32
    requires (forall l <- l0 :: |l| < 256) && (forall l <- l1 :: |l| < 256)
    ensures var kinds := Present(0, l0) + Present(1, l1);
            ReadKinds(KindImage(0, l0, gap0) + KindImage(1, l1, gap1), |kinds|) == Some(kinds)
  {
    assert ReadKinds([], 0) == Some([]);
    var b1 := KindImage(1, l1, gap1);
    ReadPresentKind(1, l1, gap1, [], []);
    assert b1 + [] == b1 && Present(1, l1) + [] == Present(1, l1);
    ReadPresentKind(0, l0, gap0, b1, Present(1, l1));
  }

  /** Reading the value data of a record gives back every list of every site, whatever the padding
      and whatever follows, if no list is longer than its one-byte count can say. */
  lemma ReadValueDataBack(d: Record, was: bytes, pos: nat, rest: bytes)
    requires d.Valid() && pos + ValueSize(d) <= |was| && 0 < ValueSize(d) < TWO_32
    requires forall l <- d.Lists(0) + d.Lists(1) :: |l| < 256
    ensures ReadValueData(ValueImage(d, was, pos) + rest) == Some((KindsOf(d), rest))
  {
    hide KindImage, Gap, LE, FromLE, Record.Lists, ReadKinds, KindSize, Pad8;
    var l0, l1 := d.Lists(0), d.Lists(1);
    var gap0 := Gap(l0, was, pos + 8);
    var gap1 := Gap(l1, was, pos + 8 + KindSize(l0));
    var kinds := KindImage(0, l0, gap0) + KindImage(1, l1, gap1);
    var size, num := ValueSize(d), |KindsOf(d)|;
    var b := ValueImage(d, was, pos) + rest;
    var head := LE(size, 4) + LE(num, 4);
    assert b == head + kinds + rest;
    assert head[..4] == LE(size, 4) && head[4..] == LE(num, 4);
    assert b[..4] == head[..4] && b[4..8] == head[4..];
    assert b[8..size] == kinds && b[size..] == rest;
    Word32Back(size);
    Word32Back(num);
    ReadKindsBack(d, gap0, gap1);
  }

  // The counters of a record

  /** The i-th counter section holds the counters of the i-th record. */
  predicate CountersMatch(records: seq<Record>, counters: seq<bytes>) {
    |counters| == |records| && forall i | 0 <= i < |records| :: |counters[i]| == 8 * records[i].numCounters
  }

  lemma {:induction false} MatchingSizes(records: seq<Record>, counters: seq<bytes>, k: nat)
    requires CountersMatch(records, counters) && k <= |records|
    ensures |Concat(counters[..k])| == 8 * NumCounters(records[..k])
  {
    if k > 0 {
      MatchingSizes(records, counters, k - 1);
      assert counters[..k][..k - 1] == counters[..k - 1];
      assert records[..k][..k - 1] == records[..k - 1];
    }
  }

  lemma {:induction false} RecordAt(records: seq<Record>, n: nat, k: nat)
    requires k < n <= |records|
    ensures RecordsImage(records, n, |records|)[RECORD_SIZE * k..RECORD_SIZE * (k + 1)]
         == RecordImage(records[k], OffsetCounters(records, k, |records|))
  {
    hide RecordImage, OffsetCounters;
    if k < n - 1 {
      RecordAt(records, n - 1, k);
    }
  }

  /** Each data record points at its own counters: its position plus the offset written into it is
      where the bytes of its own counter section begin. */
  lemma RecordFindsItsCounters(sections: seq<Section>, was: bytes, k: nat)
    requires Valid(sections) && TotalSize(sections) <= |was| && k < |Records(sections)|
    requires CountersMatch(Records(sections), CounterSections(sections))
    ensures var image, pos := Image(sections, was), HEADER_SIZE + RECORD_SIZE * k;
            var offset := OffsetCounters(Records(sections), k, |Records(sections)|);
            var counters := CounterSections(sections)[k];
            && pos + 24 <= pos + offset <= pos + offset + |counters| <= |image|
            && image[pos + 16..pos + 24] == LE(offset, 8)
            && image[pos + offset..pos + offset + |counters|] == counters
  {
    hide HeaderImage, Image, OffsetCounters, CountersMatch, Valid, FixedSize, ValuesSize, ValueSize, ValuesImage,
         LE, RecordsImage, Concat, Records, CounterSections, NamesOf, NumCounters, TotalSize;
    MatchMeansSizes(sections);
    var tail := ImageParts(sections, was);
    var records, parts := Records(sections), CounterSections(sections);
    RecordsAndCounters(records, parts, HeaderImage(|records|, NumCounters(records), |NamesOf(sections)|), tail, k);
  }

  lemma MatchMeansSizes(sections: seq<Section>)
    requires CountersMatch(Records(sections), CounterSections(sections))
    ensures CountersSizeMatches(sections)
  {
    hide Records, CounterSections, NumCounters, Concat;
    var records, counters := Records(sections), CounterSections(sections);
    MatchingSizes(records, counters, |records|);
    assert records[..|records|] == records && counters[..|counters|] == counters;
  }

  lemma ImageParts(sections: seq<Section>, was: bytes) returns (tail: bytes)
    requires Valid(sections) && TotalSize(sections) <= |was| && CountersSizeMatches(sections)
    ensures var records := Records(sections);
            Image(sections, was)
            == HeaderImage(|records|, NumCounters(records), |NamesOf(sections)|)
               + (RecordsImage(records, |records|, |records|) + (Concat(CounterSections(sections)) + tail))
    ensures tail == NamesOf(sections) + seq(Pad8(|NamesOf(sections)|), _ => 0)
                    + ValuesImage(Records(sections), was, FixedSize(sections))
  {
    hide HeaderImage, RecordsImage, Concat, ValuesImage, NamesOf, Records, CounterSections, NumCounters, Pad8,
         ValuesSize, FixedSize;
    var records, names := Records(sections), NamesOf(sections);
    var zeros, values := seq(Pad8(|names|), _ => 0), ValuesImage(records, was, FixedSize(sections));
    tail := names + zeros + values;
    Regroup(HeaderImage(|records|, NumCounters(records), |names|), RecordsImage(records, |records|, |records|),
            Concat(CounterSections(sections)), names, zeros, values);
  }

  lemma RecordsAndCounters(records: seq<Record>, parts: seq<bytes>, header: bytes, tail: bytes, k: nat)
    requires CountersMatch(records, parts) && k < |records| && |header| == HEADER_SIZE
    ensures var image := header + (RecordsImage(records, |records|, |records|) + (Concat(parts) + tail));
            var pos, offset := HEADER_SIZE + RECORD_SIZE * k, OffsetCounters(records, k, |records|);
            && pos + 24 <= pos + offset <= pos + offset + |parts[k]| <= |image|
            && image[pos + 16..pos + 24] == LE(offset, 8)
            && image[pos + offset..pos + offset + |parts[k]|] == parts[k]
  {
    hide RecordImage, LE, Concat;
    var at := |Concat(parts[..k])|;
    MatchingSizes(records, parts, k);
    ConcatPart(parts, k);
    RecordOffsetField(records, k);
    ThreePieces(header, RecordsImage(records, |records|, |records|), Concat(parts), tail,
                RECORD_SIZE * k + 16, RECORD_SIZE * k + 24, at, at + |parts[k]|);
  }

  lemma RecordOffsetField(records: seq<Record>, k: nat)
    requires k < |records|
    ensures RecordsImage(records, |records|, |records|)[RECORD_SIZE * k + 16..RECORD_SIZE * k + 24]
         == LE(OffsetCounters(records, k, |records|), 8)
  {
    hide RecordImage, RecordsImage, OffsetCounters, LE;
    RecordAt(records, |records|, k);
    OffsetField(records[k], OffsetCounters(records, k, |records|));
    SliceOfSlice(RecordsImage(records, |records|, |records|), RECORD_SIZE * k, RECORD_SIZE, 16, 24);
  }

  lemma ThreePieces(header: bytes, body: bytes, counters: bytes, tail: bytes, i: nat, j: nat, m: nat, n: nat)
    requires i <= j <= |body| && m <= n <= |counters|
    ensures var image, h, c := header + (body + (counters + tail)), |header|, |header| + |body|;
            c + n <= |image| && image[h + i..h + j] == body[i..j] && image[c + m..c + n] == counters[m..n]
  {
    SliceOfFront(body, counters + tail, i, j);
    SliceBehind(header, body + (counters + tail), i, j);
    SliceOfFront(counters, tail, m, n);
    SliceBehind(body, counters + tail, m, n);
    SliceBehind(header, body + (counters + tail), |body| + m, |body| + n);
  }

  lemma OffsetField(d: Record, offset: nat)
    ensures RecordImage(d, offset)[16..24] == LE(offset, 8)
  {
    hide LE, Words;
    var ws: seq<nat> := [d.funcMd5, d.funcHash, offset, d.funcPtr, d.valuesPtr];
    WordsAt(ws, 2);
    SliceOfFront(Words(ws), LE(d.numCounters, 4) + LE(d.sites0, 2) + LE(d.sites1, 2), 16, 24);
    Regroup4(Words(ws), LE(d.numCounters, 4), LE(d.sites0, 2), LE(d.sites1, 2));
  }
}
