/// The dump of the profile: one pass that computes the size, and one that
/// writes the bytes into a buffer of the caller.
module ProfileDump {
  import opened Buffers
  import opened Bytes
  import opened ValueProfile
  import opened ProfileImage

  // The size pass

  lemma PrefixStep(sections: seq<Section>, i: nat)
    requires i < |sections|
    ensures var s, front := sections[i], sections[..i];
            && Records(sections[..i + 1]) == (if s.Data? then Records(front) + [s.record] else Records(front))
            && CounterSections(sections[..i + 1])
               == (if s.Counters? then CounterSections(front) + [s.data] else CounterSections(front))
            && NamesOf(sections[..i + 1]) == (if s.Names? then s.data else NamesOf(front))
  {
    assert sections[..i + 1][..i] == sections[..i];
  }

  lemma NumCountersAppend(records: seq<Record>, d: Record)
    ensures NumCounters(records + [d]) == NumCounters(records) + d.numCounters
  {
    assert (records + [d])[..|records|] == records;
  }

  lemma ValuesSizeAppend(records: seq<Record>, d: Record)
    requires (forall r <- records :: r.Valid()) && d.Valid()
    ensures ValuesSize(records + [d]) == ValuesSize(records) + ValueSize(d)
  {
    assert (records + [d])[..|records|] == records;
  }

  lemma NumNodesAppend(lists: seq<seq<Entry>>, list: seq<Entry>)
    ensures NumNodes(lists + [list]) == NumNodes(lists) + |list|
  {
    assert (lists + [list])[..|lists|] == lists;
  }

  /** The value lists of a kind start behind those of the kinds before it. */
  function ListAt(d: Record, at: nat): seq<Entry>
    requires d.Valid() && at < d.sites0 + d.sites1
  {
    if d.values.None? then [] else d.values.value[at]
  }

  lemma ListAtIsSite(d: Record, kind: nat, k: nat)
    requires d.Valid() && kind < 2 && k < d.Sites(kind)
    ensures ListAt(d, k + if kind == 0 then 0 else d.sites0) == d.Lists(kind)[k]
  {
  }

  /** The size of one kind's value data; the walk over a list that counts its nodes is |list|. */
  method KindValueSize(d: Record, kind: nat, values: nat) returns (size: nat)
    requires d.Valid() && kind < 2 && values == (if kind == 0 then 0 else d.sites0)
    ensures size == KindSize(d.Lists(kind))
  {
    hide Record.Lists, NumNodes;
    ghost var lists := d.Lists(kind);
    size := 0;
    var numValueSites := d.Sites(kind);
    if numValueSites > 0 {
      size := 8;
      AlignUpIsPad8(numValueSites);
      size := size + AlignUp(numValueSites, 8);
      ghost var fixed := size;
      NoNodes(lists);
      var k := 0;
      while k < numValueSites
        invariant 0 <= k <= numValueSites && size == fixed + 16 * NumNodes(lists[..k])
      {
        ListAtIsSite(d, kind, k);
        NumNodesAppend(lists[..k], lists[k]);
        assert lists[..k + 1] == lists[..k] + [lists[k]];
        var numValueNodes := |ListAt(d, values + k)|;
        if numValueNodes != 0 {
          size := size + numValueNodes * 8 * 2;
        }
        k := k + 1;
      }
      assert lists[..k] == lists;
    }
  }

  lemma NoNodes(lists: seq<seq<Entry>>)
    ensures NumNodes(lists[..0]) == 0
  {
  }

  method RecordValueSize(d: Record) returns (size: nat)
    requires d.Valid()
    ensures size == ValueSize(d)
  {
    size := 0;
    if d.sites0 > 0 || d.sites1 > 0 {
      var size0 := KindValueSize(d, 0, 0);
      var size1 := KindValueSize(d, 1, d.sites0);
      size := 8 + size0 + size1;
    }
  }

  lemma AlignUpIsPad8(n: nat)
    ensures AlignUp(n, 8) == n + Pad8(n)
  {
    hide AlignUp;
    AlignUpIs(n, 8);
  }

  method GetPgoProfDataSize(sections: seq<Section>)
    returns (totalSize: nat, numProfData: nat, numProfCounters: nat, namesSize: nat, valueCountersSize: nat, names: bytes)
    requires Valid(sections)
    ensures totalSize == if CountersSizeMatches(sections) then TotalSize(sections) else 0
    ensures Figures(numProfData, numProfCounters, names) == Given(sections) && namesSize == |names|
    ensures valueCountersSize == if CountersSizeMatches(sections) then ValuesSize(Records(sections)) else 0
  {
    var countersSize;
    numProfData, numProfCounters, countersSize, names := SectionTotals(sections);
    namesSize, valueCountersSize := |names|, 0;
    if countersSize != numProfCounters * 8 {
      return 0, 0, 0, 0, 0, [];
    }
    totalSize := HEADER_SIZE + numProfData * RECORD_SIZE + countersSize + namesSize;
    var paddingSize := 8 - namesSize % 8;
    if paddingSize != 8 {
      totalSize := totalSize + paddingSize;
    }
    assert totalSize == FixedSize(sections);
    valueCountersSize := SizeOfValues(sections);
    totalSize := totalSize + valueCountersSize;
  }

  lemma NoSections(sections: seq<Section>)
    ensures var none := sections[..0];
            && Records(none) == [] && NumCounters([]) == 0 && CounterSections(none) == []
            && Concat([]) == [] && NamesOf(none) == []
  {
  }

  /** The first loop of the size pass. */
  method SectionTotals(sections: seq<Section>)
    returns (numProfData: nat, numProfCounters: nat, countersSize: nat, names: bytes)
    requires Valid(sections)
    ensures numProfData == |Records(sections)| && numProfCounters == NumCounters(Records(sections))
    ensures countersSize == |Concat(CounterSections(sections))| && names == NamesOf(sections)
  {
    hide Records, CounterSections, NamesOf, Concat, NumCounters;
    NoSections(sections);
    numProfData, numProfCounters, countersSize, names := 0, 0, 0, [];
    var i := 0;
    while i < |sections|
      invariant 0 <= i <= |sections|
      invariant numProfData == |Records(sections[..i])| && numProfCounters == NumCounters(Records(sections[..i]))
      invariant countersSize == |Concat(CounterSections(sections[..i]))| && names == NamesOf(sections[..i])
    {
      PrefixStep(sections, i);
      match sections[i] {
        case Data(d) =>
          NumCountersAppend(Records(sections[..i]), d);
          numProfData := numProfData + 1;
          numProfCounters := numProfCounters + d.numCounters;
        case Counters(data) =>
          ConcatAppend(CounterSections(sections[..i]), data);
          countersSize := countersSize + |data|;
        case Names(data) =>
          names := data;
        case Other =>
      }
      i := i + 1;
    }
    assert sections[..i] == sections;
  }

  /** The second loop of the size pass. */
  method SizeOfValues(sections: seq<Section>) returns (size: nat)
    requires Valid(sections)
    ensures size == ValuesSize(Records(sections))
  {
    size := 0;
    var i := 0;
    while i < |sections|
      invariant 0 <= i <= |sections| && Valid(sections[..i])
      invariant size == ValuesSize(Records(sections[..i]))
    {
      PrefixStep(sections, i);
      if sections[i].Data? {
        var d := sections[i].record;
        assert sections[i] in sections && d.Valid();
        ValuesSizeAppend(Records(sections[..i]), d);
        var n := RecordValueSize(d);
        size := size + n;
      }
      i := i + 1;
    }
    assert sections[..i] == sections;
  }

  // The writing pass

  /** The skipped bytes behind the last one stored of a kind: its padding, if there are no nodes. */
  function KindTail(lists: seq<seq<Entry>>): (n: nat)
    ensures n < 8
  {
    if lists != [] && NumNodes(lists) == 0 then Pad8(|lists|) else 0
  }

  /** Of a record: those of its last kind that has sites. */
  function ValueTail(d: Record): (n: nat)
    requires d.Valid()
    ensures n < 8
  {
    KindTail(d.Lists(if d.sites1 > 0 then 1 else 0))
  }

  /** Of the whole dump: those of the last record that has sites. */
  function Tail(records: seq<Record>): (n: nat)
    requires forall d <- records :: d.Valid()
    ensures n < 8
  {
    if records == [] then 0
    else
      var d := records[|records| - 1];
      if d.sites0 > 0 || d.sites1 > 0 then ValueTail(d) else Tail(records[..|records| - 1])
  }

  /** The end of the furthest store of a dump. */
  function StoredSize(sections: seq<Section>): nat
    requires Valid(sections)
  {
    TotalSize(sections) - Tail(Records(sections))
  }

  lemma TailAppend(records: seq<Record>, d: Record)
    requires (forall r <- records :: r.Valid()) && d.Valid()
    ensures Tail(records + [d]) == if d.sites0 > 0 || d.sites1 > 0 then ValueTail(d) else Tail(records)
  {
    hide ValueTail;
    assert (records + [d])[..|records|] == records;
  }

  lemma NoTail()
    ensures Tail([]) == 0
  {
  }

  /** Every store of the writing pass: `end` and `last` are the end of the furthest store before and after it. */
  method Store(buf: array<byte>, pos: nat, src: bytes, end: nat, ghost was: bytes, ghost image: bytes)
      returns (next: nat, last: nat)
    requires Written(buf[..], was, image) && pos == |image| && pos + |src| <= buf.Length
    modifies buf
    ensures Written(buf[..], was, image + src) && next == |image + src|
    ensures last == if |src| > 0 && next > end then next else end
  {
    next := Put(buf, pos, src, was, image);
    last := if |src| > 0 && next > end then next else end;
  }

  lemma PairsAppend(list: seq<Entry>, e: Entry)
    ensures Pairs(list + [e]) == Pairs(list) + LE(e.value, 8) + LE(e.count, 8)
  {
    assert (list + [e])[..|list|] == list;
  }

  lemma AllPairsAppend(lists: seq<seq<Entry>>, list: seq<Entry>)
    ensures AllPairs(lists + [list]) == AllPairs(lists) + Pairs(list)
  {
    assert (lists + [list])[..|lists|] == lists;
  }

  lemma CountsAppend(lists: seq<seq<Entry>>, list: seq<Entry>)
    ensures Counts(lists + [list]) == Counts(lists) + [|list| % 256]
  {
  }

  /** A store that comes back to bytes that were skipped. */
  method StoreBack(buf: array<byte>, at: nat, src: bytes, end: nat,
                   ghost was: bytes, ghost front: bytes, ghost hole: bytes, ghost back: bytes) returns (last: nat)
    requires Written(buf[..], was, front + hole + back) && at == |front| && |hole| == |src|
    modifies buf
    ensures Written(buf[..], was, front + src + back)
    ensures last == if |src| > 0 && at + |src| > end then at + |src| else end
  {
    Patch(buf, at, src, was, front, hole, back);
    last := if |src| > 0 && at + |src| > end then at + |src| else end;
  }

  method PutNodes(buf: array<byte>, pos: nat, list: seq<Entry>, end: nat, ghost was: bytes, ghost image: bytes)
      returns (next: nat, last: nat)
    requires Written(buf[..], was, image) && end <= pos == |image| && pos + 16 * |list| <= buf.Length
    modifies buf
    ensures Written(buf[..], was, image + Pairs(list)) && next == |image + Pairs(list)|
    ensures last == if list == [] then end else next
  {
    hide Written, LE;
    next, last := pos, end;
    var i := 0;
    assert image + Pairs(list[..0]) == image;
    while i < |list|
      invariant 0 <= i <= |list| && next == |image + Pairs(list[..i])|
      invariant Written(buf[..], was, image + Pairs(list[..i])) && last == if i == 0 then end else next
    {
      ghost var front := image + Pairs(list[..i]);
      next, last := Store(buf, next, LE(list[i].value, 8), last, was, front);
      next, last := Store(buf, next, LE(list[i].count, 8), last, was, front + LE(list[i].value, 8));
      PairsAppend(list[..i], list[i]);
      assert list[..i + 1] == list[..i] + [list[i]];
      assert image + Pairs(list[..i + 1]) == front + LE(list[i].value, 8) + LE(list[i].count, 8);
      i := i + 1;
    }
    assert list[..i] == list;
  }

  /** The counts of one kind, one byte for each site; the flag tells whether the assertion of the
      source held for all of them. */
  method PutCounts(buf: array<byte>, pos: nat, d: Record, kind: nat, values: nat, end: nat,
                   ghost was: bytes, ghost image: bytes)
    returns (next: nat, last: nat, asserted: bool)
    requires d.Valid() && kind < 2 && values == (if kind == 0 then 0 else d.sites0)
    requires Written(buf[..], was, image) && end <= pos == |image| && pos + d.Sites(kind) <= buf.Length
    modifies buf
    ensures Written(buf[..], was, image + Counts(d.Lists(kind))) && next == |image + Counts(d.Lists(kind))|
    ensures last == if d.Sites(kind) == 0 then end else next
    ensures asserted <==> forall l <- d.Lists(kind) :: |l| < 255
  {
    hide Written;
    ghost var lists := d.Lists(kind);
    next, last, asserted := pos, end, true;
    var k := 0;
    assert image + Counts(lists[..0]) == image;
    while k < d.Sites(kind)
      invariant 0 <= k <= |lists| && next == |image + Counts(lists[..k])|
      invariant Written(buf[..], was, image + Counts(lists[..k])) && last == if k == 0 then end else next
      invariant asserted <==> forall l <- lists[..k] :: |l| < 255
    {
      ListAtIsSite(d, kind, k);
      var numValueNodes := |ListAt(d, values + k)|;
      asserted := asserted && numValueNodes < 255;
      next, last := Store(buf, next, [numValueNodes % 256], last, was, image + Counts(lists[..k]));
      CountsAppend(lists[..k], lists[k]);
      assert lists[..k + 1] == lists[..k] + [lists[k]];
      assert image + Counts(lists[..k + 1]) == image + Counts(lists[..k]) + [numValueNodes % 256];
      k := k + 1;
    }
    assert lists[..k] == lists;
  }

  method PutLists(buf: array<byte>, pos: nat, d: Record, kind: nat, values: nat, end: nat,
                  ghost was: bytes, ghost image: bytes)
    returns (next: nat, last: nat)
    requires d.Valid() && kind < 2 && values == (if kind == 0 then 0 else d.sites0)
    requires Written(buf[..], was, image) && end <= pos == |image| && pos + 16 * NumNodes(d.Lists(kind)) <= buf.Length
    modifies buf
    ensures Written(buf[..], was, image + AllPairs(d.Lists(kind))) && next == |image + AllPairs(d.Lists(kind))|
    ensures last == if NumNodes(d.Lists(kind)) == 0 then end else next
  {
    hide Written, Pairs, Record.Lists;
    ghost var lists := d.Lists(kind);
    assert image + AllPairs(lists[..0]) == image;
    next, last := pos, end;
    var k := 0;
    while k < d.Sites(kind)
      invariant 0 <= k <= |lists| && next == |image + AllPairs(lists[..k])|
      invariant Written(buf[..], was, image + AllPairs(lists[..k]))
      invariant last == if NumNodes(lists[..k]) == 0 then end else next
    {
      ListAtIsSite(d, kind, k);
      NextList(lists, k);
      next, last := PutNodes(buf, next, ListAt(d, values + k), last, was, image + AllPairs(lists[..k]));
      Regroup3(image, AllPairs(lists[..k]), Pairs(lists[k]));
      k := k + 1;
    }
    assert lists[..k] == lists;
  }

  lemma NextList(lists: seq<seq<Entry>>, k: nat)
    requires k < |lists|
    ensures AllPairs(lists[..k + 1]) == AllPairs(lists[..k]) + Pairs(lists[k])
    ensures NumNodes(lists[..k + 1]) == NumNodes(lists[..k]) + |lists[k]| <= NumNodes(lists)
  {
    assert lists[..k + 1] == lists[..k] + [lists[k]];
    AllPairsAppend(lists[..k], lists[k]);
    NumNodesAppend(lists[..k], lists[k]);
    NumNodesUpTo(lists, k + 1);
  }

  lemma {:induction false} NumNodesUpTo(lists: seq<seq<Entry>>, k: nat)
    requires k <= |lists|
    ensures NumNodes(lists[..k]) <= NumNodes(lists)
  {
    var n := |lists| - 1;
    if k <= n {
      NumNodesUpTo(lists[..n], k);
      assert lists[..n][..k] == lists[..k];
    } else {
      assert lists[..k] == lists;
    }
  }

  lemma GapFollows(lists: seq<seq<Entry>>, was: bytes, pos: nat, front: bytes)
    requires pos + KindSize(lists) <= |was| && lists != [] && |front| == pos + 8 + |lists|
    ensures Gap(lists, was, pos) <= was[|front|..]
  {
  }

  /** One kind of one record. */
  method PutKind(buf: array<byte>, pos: nat, d: Record, kind: nat, values: nat, end: nat,
                 ghost was: bytes, ghost image: bytes)
    returns (next: nat, last: nat, asserted: bool)
    requires d.Valid() && kind < 2 && values == (if kind == 0 then 0 else d.sites0)
    requires Written(buf[..], was, image) && end <= pos == |image| && pos + KindSize(d.Lists(kind)) <= buf.Length == |was|
    modifies buf
    ensures var after := image + KindImage(kind, d.Lists(kind), Gap(d.Lists(kind), was, pos));
            Written(buf[..], was, after) && next == |after|
    ensures last == if d.Sites(kind) == 0 then end else next - KindTail(d.Lists(kind))
    ensures asserted <==> forall l <- d.Lists(kind) :: |l| < 255
  {
    hide Written, Gap;
    if d.Sites(kind) > 0 {
      next, last, asserted := PutSites(buf, pos, d, kind, values, end, was, image);
    } else {
      next, last, asserted := pos, end, true;
      assert image + KindImage(kind, d.Lists(kind), Gap(d.Lists(kind), was, pos)) == image;
    }
  }

  lemma KindParts(kind: nat, lists: seq<seq<Entry>>, gap: bytes, image: bytes)
    requires lists != [] && |gap| == Pad8(|lists|)
    ensures KindSize(lists) == 8 + |lists| + Pad8(|lists|) + 16 * NumNodes(lists)
    ensures image + KindImage(kind, lists, gap)
         == image + LE(kind, 4) + LE(|lists|, 4) + Counts(lists) + gap + AllPairs(lists)
  {
    hide LE, Counts, AllPairs, NumNodes, Pad8;
    RegroupParts(image, LE(kind, 4), LE(|lists|, 4), Counts(lists), gap, AllPairs(lists));
  }

  lemma RegroupParts(a: bytes, b: bytes, c: bytes, d: bytes, e: bytes, f: bytes)
    ensures a + (b + c + d + e + f) == a + b + c + d + e + f
  {
  }

  method PutSites(buf: array<byte>, pos: nat, d: Record, kind: nat, values: nat, end: nat,
                  ghost was: bytes, ghost image: bytes)
    returns (next: nat, last: nat, asserted: bool)
    requires d.Valid() && kind < 2 && values == (if kind == 0 then 0 else d.sites0) && d.Sites(kind) > 0
    requires Written(buf[..], was, image) && end <= pos == |image| && pos + KindSize(d.Lists(kind)) <= buf.Length == |was|
    modifies buf
    ensures var after := image + KindImage(kind, d.Lists(kind), Gap(d.Lists(kind), was, pos));
            Written(buf[..], was, after) && next == |after|
    ensures last == next - KindTail(d.Lists(kind))
    ensures asserted <==> forall l <- d.Lists(kind) :: |l| < 255
  {
    hide Written, LE, Counts, AllPairs, NumNodes, Gap, KindImage, KindSize, Record.Lists, Record.Valid;
    ghost var lists, gap := d.Lists(kind), Gap(d.Lists(kind), was, pos);
    KindParts(kind, lists, gap, image);
    var numValueSites := d.Sites(kind);
    next, last := Store(buf, pos, LE(kind, 4), end, was, image);
    next, last := Store(buf, next, LE(numValueSites, 4), last, was, image + LE(kind, 4));
    ghost var front := image + LE(kind, 4) + LE(numValueSites, 4);
    next, last, asserted := PutCounts(buf, next, d, kind, values, last, was, front);
    front := front + Counts(lists);
    GapFollows(lists, was, pos, front);
    Skip(buf[..], was, front, gap);
    if numValueSites % 8 != 0 {
      next := next + (8 - numValueSites % 8);
    }
    next, last := PutLists(buf, next, d, kind, values, last, was, front + gap);
  }

  /** All value lists of a record are short enough for the assertion of the source. */
  predicate ShortLists(d: Record)
    requires d.Valid()
  {
    (forall l <- d.Lists(0) :: |l| < 255) && (forall l <- d.Lists(1) :: |l| < 255)
  }

  lemma ShortKinds(d: Record)
    requires d.Valid()
    ensures ShortLists(d) <==> (forall l <- d.Lists(0) :: |l| < 255) && (forall l <- d.Lists(1) :: |l| < 255)
  {
  }

  predicate AllShort(records: seq<Record>)
    requires forall d <- records :: d.Valid()
  {
    forall d <- records :: ShortLists(d)
  }

  lemma NoneShort()
    ensures AllShort([])
  {
  }

  lemma OneMoreShort(records: seq<Record>, d: Record)
    requires (forall r <- records :: r.Valid()) && d.Valid()
    ensures AllShort(records + [d]) <==> AllShort(records) && ShortLists(d)
  {
    hide ShortLists;
    assert forall r :: r in records + [d] <==> r in records || r == d;
  }

  /** The value data of one record: its size is written last, into the hole left for it. */
  method PutValueData(buf: array<byte>, pos: nat, d: Record, end: nat, ghost was: bytes, ghost image: bytes)
    returns (next: nat, size: nat, last: nat, asserted: bool)
    requires d.Valid() && Written(buf[..], was, image) && end <= pos == |image|
    requires pos + ValueSize(d) <= buf.Length == |was|
    modifies buf
    ensures Written(buf[..], was, image + ValueImage(d, was, pos))
    ensures next == pos + ValueSize(d) && size == ValueSize(d)
    ensures last == if d.sites0 > 0 || d.sites1 > 0 then next - ValueTail(d) else end
    ensures asserted <==> ShortLists(d)
  {
    hide Written, ValueImage, ShortLists, ValueTail;
    if d.sites0 > 0 || d.sites1 > 0 {
      next, size, last, asserted := PutSizedKinds(buf, pos, d, end, was, image);
    } else {
      NoLists(d);
      next, size, last, asserted := pos, 0, end, true;
      assert image + ValueImage(d, was, pos) == image;
    }
  }

  method PutSizedKinds(buf: array<byte>, pos: nat, d: Record, end: nat, ghost was: bytes, ghost image: bytes)
    returns (next: nat, size: nat, last: nat, asserted: bool)
    requires d.Valid() && (d.sites0 > 0 || d.sites1 > 0) && Written(buf[..], was, image) && end <= pos == |image|
    requires pos + ValueSize(d) <= buf.Length == |was|
    modifies buf
    ensures Written(buf[..], was, image + ValueImage(d, was, pos))
    ensures next == pos + ValueSize(d) && size == ValueSize(d)
    ensures last == next - ValueTail(d)
    ensures asserted <==> ShortLists(d)
  {
    hide Written, ValueImage, ShortLists, ValueTail;
    ValueSizeBound(d);
    ghost var hole := Hole(buf[..], was, image, 4);
    ghost var back;
    next, last, asserted, back := PutKinds(buf, pos, d, end, was, image + hole);
    size := next - pos;
    last := StoreBack(buf, pos, LE(size, 4), last, was, image, hole, back);
    Regroup3(image, LE(size, 4), back);
  }

  lemma ValueSizeBound(d: Record)
    requires d.Valid()
    ensures d.sites0 > 0 || d.sites1 > 0 ==> ValueSize(d) >= 8
  {
  }

  /** The number of kinds and the kinds, behind the four bytes left for the size at position pos. */
  method PutKinds(buf: array<byte>, pos: nat, d: Record, end: nat, ghost was: bytes, ghost image: bytes)
    returns (next: nat, last: nat, asserted: bool, ghost back: bytes)
    requires d.Valid() && (d.sites0 > 0 || d.sites1 > 0)
    requires Written(buf[..], was, image) && end <= pos && |image| == pos + 4
    requires pos + ValueSize(d) <= buf.Length == |was|
    modifies buf
    ensures Written(buf[..], was, image + back) && next == pos + ValueSize(d)
    ensures ValueImage(d, was, pos) == LE(ValueSize(d), 4) + back
    ensures last == next - ValueTail(d) >= pos + 8
    ensures asserted <==> ShortLists(d)
  {
    hide Written, LE, KindImage, KindSize, KindTail, Gap, Record.Lists, ShortLists;
    ghost var lists0, lists1 := d.Lists(0), d.Lists(1);
    var kinds := if d.sites0 > 0 && d.sites1 > 0 then 2 else 1;
    ghost var kind0 := KindImage(0, lists0, Gap(lists0, was, pos + 8));
    ghost var kind1 := KindImage(1, lists1, Gap(lists1, was, pos + 8 + KindSize(lists0)));
    back := LE(kinds, 4) + kind0 + kind1;
    TailInside(lists0);
    TailInside(lists1);
    next, last := Store(buf, pos + 4, LE(kinds, 4), end, was, image);
    var a0, a1;
    next, last, a0 := PutKind(buf, next, d, 0, 0, last, was, image + LE(kinds, 4));
    next, last, a1 := PutKind(buf, next, d, 1, d.sites0, last, was, image + LE(kinds, 4) + kind0);
    asserted := a0 && a1;
    ShortKinds(d);
    Regroup4(image, LE(kinds, 4), kind0, kind1);
    Regroup4(LE(ValueSize(d), 4), LE(kinds, 4), kind0, kind1);
  }

  lemma TailInside(lists: seq<seq<Entry>>)
    ensures KindTail(lists) <= KindSize(lists) && (lists == [] ==> KindSize(lists) == 0)
  {
  }

  lemma NoLists(d: Record)
    requires d.Valid() && d.sites0 == 0 && d.sites1 == 0
    ensures ShortLists(d) && ValueSize(d) == 0
  {
    assert d.Lists(0) == [] && d.Lists(1) == [];
  }

  lemma ValuesImageAppend(records: seq<Record>, d: Record, was: bytes, pos: nat)
    requires (forall r <- records :: r.Valid()) && d.Valid()
    requires pos + ValuesSize(records + [d]) <= |was|
    ensures ValuesSize(records + [d]) == ValuesSize(records) + ValueSize(d)
    ensures ValuesImage(records + [d], was, pos)
         == ValuesImage(records, was, pos) + ValueImage(d, was, pos + ValuesSize(records))
  {
    hide ValueImage, ValueSize;
    assert (records + [d])[..|records|] == records;
  }

  lemma {:induction false} PrefixRecords(sections: seq<Section>, i: nat)
    requires Valid(sections) && i <= |sections|
    ensures Valid(sections[..i]) && Records(sections[..i]) <= Records(sections)
    ensures ValuesSize(Records(sections[..i])) <= ValuesSize(Records(sections))
    decreases |sections| - i
  {
    assert Valid(sections[..i]);
    if i < |sections| {
      PrefixRecords(sections, i + 1);
      PrefixStep(sections, i);
      if sections[i].Data? {
        assert sections[i] in sections;
        ValuesSizeAppend(Records(sections[..i]), sections[i].record);
      }
    } else {
      assert sections[..i] == sections;
    }
  }

  /** The last loop: the value data of all records, and the bytes it came to. */
  method PutValues(buf: array<byte>, pos: nat, sections: seq<Section>, end: nat, ghost was: bytes, ghost image: bytes)
    returns (valueCountersSize: nat, last: nat, asserted: bool)
    requires Valid(sections) && Written(buf[..], was, image) && end == pos == |image|
    requires pos + ValuesSize(Records(sections)) <= buf.Length == |was|
    modifies buf
    ensures Written(buf[..], was, image + ValuesImage(Records(sections), was, pos))
    ensures valueCountersSize == ValuesSize(Records(sections))
    ensures last == pos + ValuesSize(Records(sections)) - Tail(Records(sections))
    ensures asserted <==> AllShort(Records(sections))
  {
    hide Written, ValueImage, ValueSize, ValuesImage, ValuesSize, ShortLists, AllShort, Records, CounterSections, NamesOf,
         ValueTail, Tail;
    NoneShort();
    NoTail();
    valueCountersSize, last, asserted := 0, end, true;
    var next, i := pos, 0;
    NoRecords(sections, was, pos, image);
    while i < |sections|
      invariant 0 <= i <= |sections| && Valid(sections[..i])
      invariant ValuesSize(Records(sections[..i])) <= ValuesSize(Records(sections))
      invariant valueCountersSize == ValuesSize(Records(sections[..i])) && next == pos + valueCountersSize
      invariant Written(buf[..], was, image + ValuesImage(Records(sections[..i]), was, pos))
      invariant last == next - Tail(Records(sections[..i]))
      invariant asserted <==> AllShort(Records(sections[..i]))
    {
      PrefixStep(sections, i);
      PrefixRecords(sections, i + 1);
      if sections[i].Data? {
        var d := sections[i].record;
        ghost var front := Records(sections[..i]);
        assert sections[i] in sections && d.Valid();
        ValuesImageAppend(front, d, was, pos);
        OneMoreShort(front, d);
        TailAppend(front, d);
        if d.sites0 == 0 && d.sites1 == 0 {
          NoValues(d);
        }
        var size, short;
        next, size, last, short := PutValueData(buf, next, d, last, was, image + ValuesImage(front, was, pos));
        Regroup3(image, ValuesImage(front, was, pos), ValueImage(d, was, pos + valueCountersSize));
        valueCountersSize := valueCountersSize + size;
        asserted := asserted && short;
      }
      i := i + 1;
    }
    assert sections[..i] == sections;
  }

  lemma NoValues(d: Record)
    requires d.Valid() && d.sites0 == 0 && d.sites1 == 0
    ensures ValueSize(d) == 0
  {
  }

  lemma NoRecords(sections: seq<Section>, was: bytes, pos: nat, image: bytes)
    requires pos <= |was|
    ensures Records(sections[..0]) == [] && ValuesSize([]) == 0 && image + ValuesImage([], was, pos) == image
  {
  }

  lemma NoImage(records: seq<Record>, image: bytes, numProfData: nat)
    ensures image + RecordsImage(records, 0, numProfData) == image
  {
  }

  lemma NoCountersYet()
    ensures NumCounters([]) == 0
  {
  }

  lemma OffsetOfNext(records: seq<Record>, k: nat, d: Record, numProfData: nat)
    requires k <= |records| && records[..k] + [d] <= records
    ensures k < |records| && records[k] == d && records[..k + 1] == records[..k] + [d]
    ensures OffsetCounters(records, k, numProfData)
         == AsWord(RECORD_SIZE * (numProfData - k) + 8 * NumCounters(records[..k]))
    ensures NumCounters(records[..k + 1]) == NumCounters(records[..k]) + d.numCounters
  {
    assert (records[..k] + [d])[k] == d;
    assert records[..k + 1] == records[..k] + [d];
    NumCountersAppend(records[..k], d);
  }

  /** A data section holds the next record. */
  lemma NextRecord(sections: seq<Section>, i: nat, k: nat)
    requires Valid(sections) && i < |sections|
    requires k <= |Records(sections)| && Records(sections[..i]) == Records(sections)[..k]
    ensures var records := Records(sections);
            if sections[i].Data? then
              k < |records| && records[k] == sections[i].record && Records(sections[..i + 1]) == records[..k + 1]
            else Records(sections[..i + 1]) == records[..k]
  {
    hide Records, CounterSections, NamesOf, ValuesSize;
    PrefixStep(sections, i);
    PrefixRecords(sections, i + 1);
    if sections[i].Data? {
      var records, d := Records(sections), sections[i].record;
      assert (records[..k] + [d])[k] == d;
    }
  }

  lemma NextImage(records: seq<Record>, k: nat, numProfData: nat)
    requires k < |records|
    ensures RecordsImage(records, k + 1, numProfData)
         == RecordsImage(records, k, numProfData) + RecordImage(records[k], OffsetCounters(records, k, numProfData))
  {
    hide RecordImage, OffsetCounters;
  }

  /** The loop that gives every record the offset of its counters. */
  method CounterOffsets(sections: seq<Section>, numProfData: nat) returns (offsets: seq<nat>)
    requires Valid(sections)
    ensures |offsets| == |Records(sections)|
    ensures forall k | 0 <= k < |offsets| :: offsets[k] == OffsetCounters(Records(sections), k, numProfData)
  {
    hide Records, NumCounters, OffsetCounters, Valid;
    ghost var records := Records(sections);
    NoRecords(sections, [], 0, []);
    NoCountersYet();
    var countersDelta: int, offsetCounters := RECORD_SIZE * numProfData, 0;
    offsets := [];
    var i := 0;
    while i < |sections|
      invariant 0 <= i <= |sections| && |offsets| <= |records| && Records(sections[..i]) == records[..|offsets|]
      invariant countersDelta == RECORD_SIZE * (numProfData - |offsets|)
      invariant offsetCounters == 8 * NumCounters(records[..|offsets|])
      invariant forall k | 0 <= k < |offsets| :: offsets[k] == OffsetCounters(records, k, numProfData)
    {
      NextRecord(sections, i, |offsets|);
      if sections[i].Data? {
        var d := sections[i].record;
        OffsetOfNext(records, |offsets|, d, numProfData);
        offsets := offsets + [AsWord(countersDelta + offsetCounters)];
        offsetCounters := offsetCounters + d.numCounters * 8;
        countersDelta := countersDelta - RECORD_SIZE;
      }
      i := i + 1;
    }
    assert sections[..i] == sections;
  }

  method PutRecords(buf: array<byte>, pos: nat, sections: seq<Section>, offsets: seq<nat>, ghost numProfData: nat,
                    end: nat, ghost was: bytes, ghost image: bytes)
    returns (next: nat, last: nat)
    requires Valid(sections) && |offsets| == |Records(sections)|
    requires forall k | 0 <= k < |offsets| :: offsets[k] == OffsetCounters(Records(sections), k, numProfData)
    requires Written(buf[..], was, image) && end == pos == |image|
    requires pos + RECORD_SIZE * |Records(sections)| <= buf.Length
    modifies buf
    ensures var records := Records(sections);
            && Written(buf[..], was, image + RecordsImage(records, |records|, numProfData))
            && last == next == pos + RECORD_SIZE * |records|
  {
    hide Written, RecordImage, RecordsImage, OffsetCounters, Records, Valid;
    ghost var records := Records(sections);
    next, last := pos, end;
    var i, k := 0, 0;
    NoImage(records, image, numProfData);
    NoRecords(sections, was, 0, image);
    while i < |sections|
      invariant 0 <= i <= |sections| && 0 <= k <= |records| && Records(sections[..i]) == records[..k]
      invariant last == next == pos + RECORD_SIZE * k
      invariant Written(buf[..], was, image + RecordsImage(records, k, numProfData))
    {
      NextRecord(sections, i, k);
      if sections[i].Data? {
        var d := sections[i].record;
        NextImage(records, k, numProfData);
        next, last := Store(buf, next, RecordImage(d, offsets[k]), last, was, image + RecordsImage(records, k, numProfData));
        Regroup3(image, RecordsImage(records, k, numProfData), RecordImage(d, offsets[k]));
        k := k + 1;
      }
      i := i + 1;
    }
    assert sections[..i] == sections;
    assert k == |records|;
  }

  lemma {:induction false} PrefixCounters(sections: seq<Section>, i: nat)
    requires i <= |sections|
    ensures |Concat(CounterSections(sections[..i]))| <= |Concat(CounterSections(sections))|
    decreases |sections| - i
  {
    if i < |sections| {
      PrefixCounters(sections, i + 1);
      PrefixStep(sections, i);
      if sections[i].Counters? {
        ConcatAppend(CounterSections(sections[..i]), sections[i].data);
      }
    } else {
      assert sections[..i] == sections;
    }
  }

  method PutCounterSections(buf: array<byte>, pos: nat, sections: seq<Section>, end: nat,
                            ghost was: bytes, ghost image: bytes)
    returns (next: nat, last: nat)
    requires Written(buf[..], was, image) && end == pos == |image|
    requires pos + |Concat(CounterSections(sections))| <= buf.Length
    modifies buf
    ensures var counters := Concat(CounterSections(sections));
            Written(buf[..], was, image + counters) && last == next == pos + |counters|
  {
    hide Written, Concat, CounterSections;
    next, last := pos, end;
    var i := 0;
    NoCounters(sections, image);
    while i < |sections|
      invariant 0 <= i <= |sections|
      invariant var counters := Concat(CounterSections(sections[..i]));
                Written(buf[..], was, image + counters) && last == next == pos + |counters|
    {
      PrefixStep(sections, i);
      PrefixCounters(sections, i + 1);
      if sections[i].Counters? {
        ghost var front := CounterSections(sections[..i]);
        ConcatAppend(front, sections[i].data);
        next, last := Store(buf, next, sections[i].data, last, was, image + Concat(front));
        Regroup3(image, Concat(front), sections[i].data);
      }
      i := i + 1;
    }
    assert sections[..i] == sections;
  }

  lemma NoCounters(sections: seq<Section>, image: bytes)
    ensures Concat(CounterSections(sections[..0])) == [] && image + [] == image
  {
  }

  /** The names, if there are any, padded to a multiple of eight. */
  method PutNames(buf: array<byte>, pos: nat, names: bytes, end: nat, ghost was: bytes, ghost image: bytes)
      returns (next: nat, last: nat)
    requires Written(buf[..], was, image) && end == pos == |image| && pos + |names| + Pad8(|names|) <= buf.Length
    modifies buf
    ensures Written(buf[..], was, image + names + seq(Pad8(|names|), _ => 0))
    ensures last == next == pos + |names| + Pad8(|names|)
  {
    hide Written;
    next, last := pos, end;
    if |names| > 0 {
      next, last := Store(buf, next, names, last, was, image);
      var paddingSize := 8 - |names| % 8;
      if paddingSize != 8 {
        next, last := Store(buf, next, seq(paddingSize, _ => 0), last, was, image + names);
        assert seq(paddingSize, _ => 0) == seq(Pad8(|names|), _ => 0);
      } else {
        assert image + names + seq(Pad8(|names|), _ => 0) == image + names;
      }
    } else {
      assert image + names + seq(Pad8(|names|), _ => 0) == image;
    }
  }

  /** Everything in front of the value data, nothing of it skipped. */
  method PutFixed(buf: array<byte>, sections: seq<Section>, numProfData: nat, numProfCounters: nat, names: bytes, ghost was: bytes)
    returns (next: nat, last: nat)
    requires Valid(sections) && Figures(numProfData, numProfCounters, names) == Given(sections)
    requires was == buf[..] && FixedSize(sections) <= buf.Length
    modifies buf
    ensures Written(buf[..], was, FixedImage(sections)) && last == next == FixedSize(sections)
  {
    assert Written(buf[..], was, []);
    var offsets := CounterOffsets(sections, numProfData);
    ghost var header := HeaderImage(numProfData, numProfCounters, |names|);
    next, last := Store(buf, 0, HeaderImage(numProfData, numProfCounters, |names|), 0, was, []);
    assert [] + header == header;
    next, last := PutRecords(buf, next, sections, offsets, numProfData, last, was, header);
    ghost var records := RecordsImage(Records(sections), |Records(sections)|, numProfData);
    next, last := PutCounterSections(buf, next, sections, last, was, header + records);
    next, last := PutNames(buf, next, names, last, was, header + records + Concat(CounterSections(sections)));
  }

  /** `memory` starts with the caller's buffer of `len` bytes and goes on behind it: the source compares
      `len` with the size pass and then stores without a bound.  With counters of another size than the
      records say the size pass returns 0, which no buffer is too short for.  `overrun` is whether a
      store went beyond the buffer, `asserted` whether both assertions held. */
  method DumpPgoProfDataToBuf(sections: seq<Section>, memory: array<byte>, len: nat)
      returns (written: nat, asserted: bool, overrun: bool)
    requires Valid(sections) && len <= memory.Length
    requires TotalSize(sections) <= memory.Length || CountersSizeMatches(sections)
    modifies memory
    ensures overrun <==> !CountersSizeMatches(sections) && len < StoredSize(sections)
    ensures if CountersSizeMatches(sections) && len < TotalSize(sections)
            then written == 0 && memory[..] == old(memory[..]) && asserted
            else && written == (if CountersSizeMatches(sections) then TotalSize(sections) else 0)
                 && memory[..] == Image(sections, old(memory[..])) + old(memory[TotalSize(sections)..])
                 && (asserted <==> && AllShort(Records(sections))
                                   && (CountersSizeMatches(sections) || ValuesSize(Records(sections)) == 0))
  {
    hide FixedSize, FixedImage, ValuesImage, ValuesSize, Records, AllShort, CountersSizeMatches, Given, Tail;
    var totalSize, numProfData, numProfCounters, namesSize, backup, names := GetPgoProfDataSize(sections);
    if len < totalSize {
      return 0, true, false;
    }
    SizeParts(sections);
    ghost var was := memory[..];
    var next, last := PutFixed(memory, sections, numProfData, numProfCounters, names, was);
    var valueCountersSize;
    valueCountersSize, last, asserted := PutValues(memory, next, sections, last, was, FixedImage(sections));
    asserted := asserted && valueCountersSize == backup;
    return totalSize, asserted, last > len;
  }

  /** An input that runs over every buffer of fewer than 153 bytes and over no other, though its value data
      ends at 160: a record with a counter and a site, and no counters. */
  lemma DumpOverruns(d: Record)
    requires d.numCounters == 1 && d.sites0 == 1 && d.sites1 == 0 && d.values.None?
    ensures var sections := [Data(d)];
            && Valid(sections) && !CountersSizeMatches(sections)
            && StoredSize(sections) == 153 && TotalSize(sections) == 160
  {
    hide Records, CounterSections, NamesOf, NumCounters, Concat, ValuesSize, ValueSize, Tail, ValueTail;
    var sections, none := [Data(d)], [Data(d)][..0];
    assert sections[..1] == sections && [] + [d] == [d];
    NoSections(sections);
    PrefixStep(sections, 0);
    NumCountersAppend([], d);
    NoRecords(sections, [], 0, []);
    NoTail();
    ValuesSizeAppend([], d);
    TailAppend([], d);
    OneEmptySite(d);
  }

  lemma OneEmptySite(d: Record)
    requires d.sites0 == 1 && d.sites1 == 0 && d.values.None?
    ensures d.Valid() && ValueSize(d) == 24 && ValueTail(d) == 7
  {
    var l0, l1 := d.Lists(0), d.Lists(1);
    assert |l0| == 1 && l0[0] == [] && l1 == [];
    NumNodesAppend([], l0[0]);
    assert [] + [l0[0]] == l0;
  }

  lemma SizeParts(sections: seq<Section>)
    requires Valid(sections)
    ensures TotalSize(sections) == FixedSize(sections) + ValuesSize(Records(sections))
  {
  }
}
