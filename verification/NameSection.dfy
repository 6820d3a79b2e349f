/// The table of function names: built from the name section of an AOT file,
/// searched by the runtime.
module NameSection {
  import opened Wrappers
  import opened Bytes
  import opened Arithmetic
  import opened Buffers
  import opened AotFile

  const SUB_SECTION_TYPE_FUNC: Word32 := 1

  /** Section data spelling "name". */
  const NAME: bytes := [110, 97, 109, 101]

  /** The three fields of the module; an array that was not allocated is a null pointer, and so is a
      name that was not loaded. */
  datatype Table = Table(count: Word32, indexes: Option<seq<Word32>>, names: Option<seq<Option<bytes>>>) {
    predicate Shaped() {
      indexes.Some? && names.Some? ==> |indexes.value| == |names.value| == count
    }
  }

  // The grammar

  /** A string of the file: a 16-bit length, then the bytes, the last of which is zero; the bytes before
      that and the position behind the string. */
  function LoadString(section: Section, pos: nat): (r: Option<(bytes, nat)>)
    ensures r.Some? ==> pos + 2 <= r.value.1 <= |section.data|
  {
    var read := section.Read(pos, 2);
    if read.None? then None
    else
      var (len, p) := read.value;
      if !section.Has(p, len) then None
      else if len == 0 then Some(([], p))
      else if section.data[p + len - 1] != 0 then None
      else Some((section.data[p..p + len - 1], p + len))
  }

  /** Length, bounds and terminator of a string that is loaded. */
  lemma StringInSection(section: Section, pos: nat)
    requires LoadString(section, pos).Some?
    ensures var (str, p) := LoadString(section, pos).value;
            var at := section.Aligned(pos, 2);
            var len := p - at - 2;
            && len >= 0 && p <= |section.data| && FromLE(section.data[at..at + 2]) == len
            && section.data[at + 2..p] == if len == 0 then [] else str + [0]
  {
  }

  function Read32(section: Section, pos: nat): (r: Option<(Word32, nat)>)
    ensures r.Some? ==> pos + 4 <= r.value.1 <= |section.data|
  {
    var read := section.Read(pos, 4);
    if read.None? then None
    else
      var (v, p) := read.value;
      FromLEBound(section.data[p - 4..p]);
      WordSizes();
      Some((v, p))
  }

  datatype Entry = Entry(index: Word32, name: bytes)

  /** A list of entries as far as it is well-formed: the entries read, the index of an entry whose name
      is malformed, and the position behind the list if all of it is well-formed. */
  datatype Entries = Entries(list: seq<Entry>, nameless: Option<Word32>, end: Option<nat>)

  /** n entries one behind the other, with indexes above `floor` that increase and stay below `total`. */
  function ParseEntries(section: Section, pos: nat, n: nat, floor: int, total: nat): (r: Entries)
    ensures |r.list| + (if r.nameless.Some? then 1 else 0) <= n
    ensures r.end.Some? ==> r.nameless.None? && |r.list| == n && pos <= r.end.value
    ensures r.end.Some? && pos <= |section.data| ==> r.end.value <= |section.data|
    decreases n
  {
    if n == 0 then Entries([], None, Some(pos))
    else
      match Read32(section, pos)
      case None => Entries([], None, None)
      case Some((index, q)) =>
        if index <= floor || index >= total then Entries([], None, None)
        else
          match LoadString(section, q)
          case None => Entries([], Some(index), None)
          case Some((name, p)) =>
            var rest := ParseEntries(section, p, n - 1, index, total);
            Entries([Entry(index, name)] + rest.list, rest.nameless, rest.end)
  }

  /** What the function sub-section says, as far as the parse has come. */
  datatype FuncNames = NoNames | Names(count: Word32, entries: Entries)

  /** The sub-sections from pos on, in increasing order of their types; whether they are well-formed, and
      the function names. */
  function ParseSubSections(section: Section, pos: nat, floor: int, total: nat, seen: FuncNames): (bool, FuncNames)
    decreases |section.data| - pos
  {
    if pos >= |section.data| then (true, seen)
    else
      match ParseHeader(section, pos, floor)
      case None => (false, seen)
      case Some((nameType, size, p)) =>
        if nameType == SUB_SECTION_TYPE_FUNC && size != 0 then
          var names := ParseFuncNames(section, p, total);
          if names.NoNames? then (false, seen)
          else if names.entries.end.None? then (false, names)
          else ParseSubSections(section, names.entries.end.value, nameType, total, names)
        else ParseSubSections(section, if nameType == SUB_SECTION_TYPE_FUNC then p else p + size, nameType, total, seen)
  }

  /** The type and size of a sub-section, and the position behind them. */
  function ParseHeader(section: Section, pos: nat, floor: int): (r: Option<(Word32, Word32, nat)>)
    ensures r.Some? ==> pos + 8 <= r.value.2 && r.value.2 + r.value.1 <= |section.data|
  {
    match Read32(section, pos)
    case None => None
    case Some((nameType, p)) =>
      if nameType <= floor then None
      else
        match Read32(section, p)
        case None => None
        case Some((size, q)) => if section.Has(q, size) then Some((nameType, size, q)) else None
  }

  function ParseFuncNames(section: Section, pos: nat, total: nat): (r: FuncNames)
    ensures r.Names? ==> |r.entries.list| + (if r.entries.nameless.Some? then 1 else 0) <= r.count
    ensures r.Names? && r.entries.end.Some? ==> |r.entries.list| == r.count && pos <= r.entries.end.value <= |section.data|
  {
    match Read32(section, pos)
    case None => NoNames
    case Some((count, p)) => if count > total then NoNames else Names(count, ParseEntries(section, p, count, -1, total))
  }

  /** The whole section: its name, and the sub-sections. */
  function ParseNameSection(section: Section, total: nat): (bool, FuncNames) {
    match Read32(section, 0)
    case None => (false, NoNames)
    case Some((len, p)) =>
      if len != 4 || !section.Has(p, 4) || section.data[p..p + 4] != NAME then (false, NoNames)
      else ParseSubSections(section, p + 4, -1, total, NoNames)
  }

  // The loader

  function IndexAt(entries: Entries, i: nat): Word32 {
    if i < |entries.list| then entries.list[i].index
    else if i == |entries.list| && entries.nameless.Some? then entries.nameless.value
    else 0
  }

  /** The arrays for a list: zero and null where there is no entry. */
  function Indexes(n: nat, entries: Entries): (r: seq<Word32>)
    ensures |r| == n
  {
    seq(n, i requires 0 <= i < n => IndexAt(entries, i))
  }

  function NamesOf(n: nat, entries: Entries): (r: seq<Option<bytes>>)
    ensures |r| == n
  {
    seq(n, i requires 0 <= i < n => if i < |entries.list| then Some(entries.list[i].name) else None)
  }

  function TableOf(count: Word32, entries: Entries): (t: Table)
    ensures t.Shaped()
  {
    Table(count, Some(Indexes(count, entries)), Some(NamesOf(count, entries)))
  }

  /** The table after a load into the table `was`; the flags say whether the two arrays could be allocated. */
  function After(was: Table, found: FuncNames, hasIndexes: bool, hasNames: bool): Table {
    match found
    case NoNames => was
    case Names(count, entries) =>
      if !hasIndexes then Table(count, None, was.names)
      else if !hasNames then Table(count, Some(seq(count, _ => 0)), None)
      else TableOf(count, entries)
  }

  function Joined(done: seq<Entry>, rest: Entries): Entries {
    Entries(done + rest.list, rest.nameless, rest.end)
  }

  class Module {
    var table: Table
    const funcCount: Word32

    constructor (total: Word32)
      ensures table == Table(0, None, None) && funcCount == total
    {
      table := Table(0, None, None);
      funcCount := total;
    }

    /** The loop over the entries, into arrays that are still zero. */
    method LoadEntries(section: Section, pos: nat, count: Word32) returns (ok: bool, p: nat)
      requires table == Table(count, Some(seq(count, _ => 0)), Some(seq(count, _ => None)))
      modifies this`table
      ensures var entries := ParseEntries(section, pos, count, -1, funcCount);
              && table == TableOf(count, entries)
              && ok == entries.end.Some? && (ok ==> p == entries.end.value)
    {
      hide LoadString, Read32, TableOf, ParseEntries;
      ghost var all := ParseEntries(section, pos, count, -1, funcCount);
      ghost var done: seq<Entry> := [];
      var k, previous := 0, TWO_32 - 1;
      p := pos;
      NothingYet(count);
      NothingDone(all);
      while k < count
        invariant k == |done| <= count && (k > 0 ==> previous == done[k - 1].index)
        invariant all == Joined(done, ParseEntries(section, p, count - k, if k == 0 then -1 else previous, funcCount))
        invariant table == TableOf(count, Entries(done, None, None))
        decreases count - k
      {
        ghost var floor: int := if k == 0 then -1 else previous;
        ParseStep(section, p, count - k, floor, funcCount);
        var read := Read32(section, p);
        if read.None? {
          EndIgnored(count, done, None, all.end);
          return false, p;
        }
        var funcIndex, q := read.value.0, read.value.1;
        if (k != 0 && funcIndex <= previous) || funcIndex >= funcCount {
          EndIgnored(count, done, None, all.end);
          return false, p;
        }
        previous := funcIndex;
        StoreIndex(count, done, funcIndex);
        table := table.(indexes := Some(table.indexes.value[k := funcIndex]));
        var name := LoadString(section, q);
        if name.None? {
          EndIgnored(count, done, Some(funcIndex), all.end);
          return false, p;
        }
        StoreName(count, done, Entry(funcIndex, name.value.0));
        table := table.(names := Some(table.names.value[k := Some(name.value.0)]));
        done := done + [Entry(funcIndex, name.value.0)];
        p := name.value.1;
        k := k + 1;
      }
      AllDone(section, p, if k == 0 then -1 else previous, funcCount, done);
      EndIgnored(count, done, None, all.end);
      ok := true;
    }

    /** The names of one function sub-section; memory is allocated in between. */
    method LoadFuncNames(section: Section, pos: nat, hasIndexes: bool, hasNames: bool) returns (ok: bool, next: nat)
      modifies this`table
      ensures var names := ParseFuncNames(section, pos, funcCount);
              && ok == (names.Names? && names.entries.end.Some? && hasIndexes && hasNames)
              && (ok ==> next == names.entries.end.value)
              && table == After(old(table), names, hasIndexes, hasNames)
    {
      hide LoadString, Read32, TableOf, ParseEntries;
      next := pos;
      var read := Read32(section, pos);
      if read.None? || read.value.0 > funcCount {
        return false, next;
      }
      var count := read.value.0;
      table := table.(count := count);
      if !hasIndexes {
        table := table.(indexes := None);
        return false, next;
      }
      var indexes: seq<Word32> := seq(count, _ => 0);
      table := table.(indexes := Some(indexes));
      if !hasNames {
        table := table.(names := None);
        return false, next;
      }
      var names: seq<Option<bytes>> := seq(count, _ => None);
      table := table.(names := Some(names));
      ok, next := LoadEntries(section, read.value.1, count);
    }

    /** load_name_section.  It succeeds exactly on a well-formed section, if memory for the names it has
        can be allocated; when it fails the names loaded so far stay in the table. */
    method LoadNameSection(section: Section, hasIndexes: bool, hasNames: bool) returns (ok: bool)
      modifies this`table
      ensures var (wellFormed, found) := ParseNameSection(section, funcCount);
              && ok == (wellFormed && (found.Names? ==> hasIndexes && hasNames))
              && table == After(old(table), found, hasIndexes, hasNames)
    {
      hide LoadString, Read32, TableOf, ParseEntries, ParseFuncNames;
      ghost var seen := NoNames;
      if |section.data| == 0 {
        ShortSection(section);
        return false;
      }
      var read := Read32(section, 0);
      if read.None? || read.value.0 != 4 || !section.Has(read.value.1, 4) {
        return false;
      }
      var p := read.value.1;
      if section.data[p..p + 4] != NAME {
        return false;
      }
      p := p + 4;
      var i, previousType := 0, 0;
      while p < |section.data|
        invariant seen.Names? ==> hasIndexes && hasNames && i != 0 && previousType >= SUB_SECTION_TYPE_FUNC
        invariant ParseNameSection(section, funcCount)
               == ParseSubSections(section, p, if i == 0 then -1 else previousType, funcCount, seen)
        invariant table == After(old(table), seen, hasIndexes, hasNames)
        decreases |section.data| - p
      {
        read := Read32(section, p);
        if read.None? {
          return false;
        }
        var nameType := read.value.0;
        if i != 0 && nameType <= previousType {
          return false;
        }
        previousType := nameType;
        read := Read32(section, read.value.1);
        if read.None? || !section.Has(read.value.1, read.value.0) {
          return false;
        }
        var subsectionSize := read.value.0;
        p := read.value.1;
        if nameType == SUB_SECTION_TYPE_FUNC {
          if subsectionSize != 0 {
            ghost var names := ParseFuncNames(section, p, funcCount);
            ok, p := LoadFuncNames(section, p, hasIndexes, hasNames);
            if !ok {
              if names.Names? && names.entries.end.Some? {
                NoMoreNames(section, names.entries.end.value, previousType, funcCount, names);
              }
              return false;
            }
            seen := names;
          }
        } else {
          p := p + subsectionSize;
        }
        i := i + 1;
      }
      return true;
    }

    /** lookup_func_name: a binary search. */
    method LookupFuncName(funcIndex: Word32) returns (name: Option<bytes>)
      requires table.Shaped()
      ensures name == Lookup(table, funcIndex)
    {
      if table.names.None? || table.indexes.None? || table.count == 0 {
        return None;
      }
      var indexes := table.indexes.value;
      var low, high := 0, table.count - 1;
      while low <= high
        invariant 0 <= low && high < table.count
        invariant Search(indexes, funcIndex, 0, table.count - 1) == Search(indexes, funcIndex, low, high)
        decreases high - low
      {
        var mid := (low + high) / 2;
        if funcIndex == indexes[mid] {
          return table.names.value[mid];
        } else if funcIndex < indexes[mid] {
          high := mid - 1;
        } else {
          low := mid + 1;
        }
      }
      return None;
    }
  }

  lemma ShortSection(section: Section)
    requires |section.data| == 0
    ensures Read32(section, 0) == None
  {
  }

  lemma NothingYet(count: Word32)
    ensures Table(count, Some(seq(count, _ => 0)), Some(seq(count, _ => None))) == TableOf(count, Entries([], None, None))
  {
    var none := Entries([], None, None);
    assert Indexes(count, none) == seq(count, _ => 0);
    assert NamesOf(count, none) == seq(count, _ => None);
  }

  lemma NothingDone(all: Entries)
    ensures Joined([], all) == all
  {
  }

  lemma ParseStep(section: Section, pos: nat, n: nat, floor: int, total: nat)
    requires n > 0
    ensures var read, all := Read32(section, pos), ParseEntries(section, pos, n, floor, total);
            if read.None? || read.value.0 <= floor || read.value.0 >= total then all == Entries([], None, None)
            else
              var (index, q) := read.value;
              var str := LoadString(section, q);
              if str.None? then all == Entries([], Some(index), None)
              else
                var rest := ParseEntries(section, str.value.1, n - 1, index, total);
                all == Joined([Entry(index, str.value.0)], rest)
                && forall done :: Joined(done, all) == Joined(done + [Entry(index, str.value.0)], rest)
  {
    hide Read32, LoadString;
    var read := Read32(section, pos);
    if read.Some? && floor < read.value.0 < total {
      var (index, q) := read.value;
      var str := LoadString(section, q);
      if str.Some? {
        var entry, rest := Entry(index, str.value.0), ParseEntries(section, str.value.1, n - 1, index, total);
        forall done
          ensures Joined(done, Joined([entry], rest)) == Joined(done + [entry], rest)
        {
          assert done + ([entry] + rest.list) == done + [entry] + rest.list;
        }
      }
    }
  }

  lemma AllDone(section: Section, pos: nat, floor: int, total: nat, done: seq<Entry>)
    ensures Joined(done, ParseEntries(section, pos, 0, floor, total)) == Entries(done, None, Some(pos))
  {
    assert done + [] == done;
  }

  lemma EndIgnored(count: Word32, done: seq<Entry>, nameless: Option<Word32>, end: Option<nat>)
    ensures TableOf(count, Entries(done, nameless, None)) == TableOf(count, Entries(done, nameless, end))
    ensures Joined(done, Entries([], nameless, end)) == Entries(done, nameless, end)
  {
    var a, b := Entries(done, nameless, None), Entries(done, nameless, end);
    assert Indexes(count, a) == Indexes(count, b) && NamesOf(count, a) == NamesOf(count, b);
    assert done + [] == done;
  }

  lemma StoreIndex(count: Word32, done: seq<Entry>, index: Word32)
    requires |done| < count
    ensures var t := TableOf(count, Entries(done, None, None));
            t.indexes.Some? && |t.indexes.value| == count
            && t.(indexes := Some(t.indexes.value[|done| := index])) == TableOf(count, Entries(done, Some(index), None))
  {
    var before, after := Entries(done, None, None), Entries(done, Some(index), None);
    assert Indexes(count, before)[|done| := index] == Indexes(count, after);
    assert NamesOf(count, before) == NamesOf(count, after);
  }

  lemma StoreName(count: Word32, done: seq<Entry>, entry: Entry)
    requires |done| < count
    ensures var t := TableOf(count, Entries(done, Some(entry.index), None));
            t.names.Some? && |t.names.value| == count
            && t.(names := Some(t.names.value[|done| := Some(entry.name)]))
               == TableOf(count, Entries(done + [entry], None, None))
  {
    var before, after := Entries(done, Some(entry.index), None), Entries(done + [entry], None, None);
    assert Indexes(count, before) == Indexes(count, after);
    assert NamesOf(count, before)[|done| := Some(entry.name)] == NamesOf(count, after);
  }

  lemma HeaderAbove(section: Section, pos: nat, floor: int)
    ensures var r := ParseHeader(section, pos, floor); r.Some? ==> r.value.0 > floor
  {
  }

  /** A function sub-section comes at most once: what follows it changes nothing about the names. */
  lemma {:induction false} NoMoreNames(section: Section, pos: nat, floor: int, total: nat, seen: FuncNames)
    requires floor >= SUB_SECTION_TYPE_FUNC
    ensures ParseSubSections(section, pos, floor, total, seen).1 == seen
    decreases |section.data| - pos
  {
    hide ParseFuncNames, ParseHeader;
    if pos < |section.data| && ParseHeader(section, pos, floor).Some? {
      var (nameType, size, p) := ParseHeader(section, pos, floor).value;
      HeaderAbove(section, pos, floor);
      NoMoreNames(section, p + size, nameType, total, seen);
    }
  }

  // The search

  /** The position a binary search of low..high stops at. */
  function Search(indexes: seq<Word32>, x: Word32, low: int, high: int): (r: Option<nat>)
    requires 0 <= low && high < |indexes|
    ensures r.Some? ==> low <= r.value <= high && indexes[r.value] == x
    decreases high - low + 1
  {
    if low > high then None
    else
      var mid := (low + high) / 2;
      if x == indexes[mid] then Some(mid)
      else if x < indexes[mid] then Search(indexes, x, low, mid - 1)
      else Search(indexes, x, mid + 1, high)
  }

  function Lookup(t: Table, funcIndex: Word32): Option<bytes>
    requires t.Shaped()
  {
    if t.names.None? || t.indexes.None? || t.count == 0 then None
    else
      match Search(t.indexes.value, funcIndex, 0, t.count - 1)
      case None => None
      case Some(k) => t.names.value[k]
  }

  lemma SearchStopsAt(indexes: seq<Word32>, x: Word32)
    ensures var r := Search(indexes, x, 0, |indexes| - 1);
            r.Some? ==> r.value < |indexes| && indexes[r.value] == x
  {
  }

  /** A search for the k-th of increasing indexes in low..high probes only positions below `sorted`. */
  predicate Reaches(low: int, high: int, k: int, sorted: int)
    requires low <= k <= high
    decreases high - low
  {
    var mid := (low + high) / 2;
    mid < sorted && (k < mid ==> Reaches(low, mid - 1, k, sorted)) && (k > mid ==> Reaches(mid + 1, high, k, sorted))
  }

  lemma {:induction false} ReachesInside(low: int, high: int, k: int, sorted: int)
    requires low <= k <= high < sorted
    ensures Reaches(low, high, k, sorted)
    decreases high - low
  {
    var mid := (low + high) / 2;
    if k < mid {
      ReachesInside(low, mid - 1, k, sorted);
    } else if k > mid {
      ReachesInside(mid + 1, high, k, sorted);
    }
  }

  /** If the search reaches a position it reaches all positions before it. */
  lemma {:induction false} ReachesBelow(low: int, high: int, k: int, j: int, sorted: int)
    requires low <= k <= j <= high && j < sorted && Reaches(low, high, j, sorted)
    ensures Reaches(low, high, k, sorted)
    decreases high - low
  {
    var mid := (low + high) / 2;
    if k < mid {
      if j < mid {
        ReachesBelow(low, mid - 1, k, j, sorted);
      } else {
        ReachesInside(low, mid - 1, k, sorted);
      }
    } else if k > mid {
      ReachesBelow(mid + 1, high, k, j, sorted);
    }
  }

  predicate Increasing(indexes: seq<Word32>, sorted: nat) {
    sorted <= |indexes| && forall i, j | 0 <= i < j < sorted :: indexes[i] < indexes[j]
  }

  lemma {:induction false} SearchReaches(indexes: seq<Word32>, low: int, high: int, k: int, sorted: nat)
    requires 0 <= low <= k <= high < |indexes| && k < sorted && Increasing(indexes, sorted)
    requires Reaches(low, high, k, sorted)
    ensures Search(indexes, indexes[k], low, high) == Some(k)
    decreases high - low
  {
    var mid := (low + high) / 2;
    if k < mid {
      SearchReaches(indexes, low, mid - 1, k, sorted);
    } else if k > mid {
      SearchReaches(indexes, mid + 1, high, k, sorted);
    }
  }

  /** On increasing indexes the search finds every index present. */
  lemma SearchFinds(indexes: seq<Word32>, k: int)
    requires 0 <= k < |indexes| && Increasing(indexes, |indexes|)
    ensures Search(indexes, indexes[k], 0, |indexes| - 1) == Some(k)
  {
    ReachesInside(0, |indexes| - 1, k, |indexes|);
    SearchReaches(indexes, 0, |indexes| - 1, k, |indexes|);
  }

  lemma {:induction false} SearchOfZeros(indexes: seq<Word32>, x: Word32, low: int, high: int)
    requires 0 <= low && high < |indexes| && x > 0 && forall i | low <= i <= high :: indexes[i] == 0
    ensures Search(indexes, x, low, high) == None
    decreases high - low + 1
  {
    if low <= high {
      SearchOfZeros(indexes, x, (low + high) / 2 + 1, high);
    }
  }

  /** A probe behind the sorted part leads away from every index but zero, and for zero it stops there. */
  lemma {:induction false} SearchStrays(indexes: seq<Word32>, low: int, high: int, k: int, sorted: nat)
    requires 0 <= low <= k <= high < |indexes| && k < sorted && Increasing(indexes, sorted)
    requires forall i | sorted <= i < |indexes| :: indexes[i] == 0
    requires !Reaches(low, high, k, sorted)
    ensures var r := Search(indexes, indexes[k], low, high); r.Some? ==> r.value >= sorted
    decreases high - low
  {
    var mid := (low + high) / 2;
    if mid >= sorted {
      if indexes[k] > 0 {
        SearchOfZeros(indexes, indexes[k], mid + 1, high);
      }
    } else if k < mid {
      SearchStrays(indexes, low, mid - 1, k, sorted);
    } else if k > mid {
      SearchStrays(indexes, mid + 1, high, k, sorted);
    }
  }

  // What a lookup finds

  /** The entries read and the one without a name, one above the other. */
  predicate Ascending(entries: Entries, floor: int, total: nat) {
    && (forall i | 0 <= i < |entries.list| :: floor < entries.list[i].index < total)
    && (forall i, j | 0 <= i < j < |entries.list| :: entries.list[i].index < entries.list[j].index)
    && (entries.nameless.Some? ==>
          && floor < entries.nameless.value < total
          && forall i | 0 <= i < |entries.list| :: entries.list[i].index < entries.nameless.value)
  }

  lemma {:induction false} EntriesAscend(section: Section, pos: nat, n: nat, floor: int, total: nat)
    ensures Ascending(ParseEntries(section, pos, n, floor, total), floor, total)
    decreases n
  {
    hide ParseEntries, Read32, LoadString, Ascending;
    NothingAscends(floor, total);
    if n > 0 {
      ParseStep(section, pos, n, floor, total);
      var read := Read32(section, pos);
      if read.Some? && floor < read.value.0 < total {
        var (index, q) := read.value;
        var str := LoadString(section, q);
        if str.Some? {
          EntriesAscend(section, str.value.1, n - 1, index, total);
          OneMoreBelow(Entry(index, str.value.0), ParseEntries(section, str.value.1, n - 1, index, total), floor, total);
        } else {
          NamelessAscends(index, floor, total);
        }
      }
    } else {
      AllDone(section, pos, floor, total, []);
    }
  }

  lemma NothingAscends(floor: int, total: nat)
    ensures forall end :: Ascending(Entries([], None, end), floor, total)
  {
  }

  lemma NamelessAscends(index: Word32, floor: int, total: nat)
    requires floor < index < total
    ensures Ascending(Entries([], Some(index), None), floor, total)
  {
  }

  lemma OneMoreBelow(entry: Entry, rest: Entries, floor: int, total: nat)
    requires floor < entry.index < total && Ascending(rest, entry.index, total)
    ensures Ascending(Joined([entry], rest), floor, total)
  {
  }

  /** What the loader knows of a function sub-section it has found. */
  predicate WellFound(found: FuncNames, total: nat) {
    found.Names? ==>
      && Ascending(found.entries, -1, total)
      && |found.entries.list| + (if found.entries.nameless.Some? then 1 else 0) <= found.count
      && (found.entries.end.Some? ==> |found.entries.list| == found.count)
  }

  lemma {:induction false} SubSectionsFound(section: Section, pos: nat, floor: int, total: nat, seen: FuncNames)
    requires WellFound(seen, total) && (seen.Names? ==> seen.entries.end.Some?)
    ensures var (wellFormed, found) := ParseSubSections(section, pos, floor, total, seen);
            WellFound(found, total) && (wellFormed && found.Names? ==> found.entries.end.Some?)
    decreases |section.data| - pos
  {
    hide Ascending, ParseEntries, Read32;
    if pos < |section.data| && ParseHeader(section, pos, floor).Some? {
      var (nameType, size, p) := ParseHeader(section, pos, floor).value;
      if nameType == SUB_SECTION_TYPE_FUNC && size != 0 {
        var names := ParseFuncNames(section, p, total);
        if names.Names? {
          EntriesAscend(section, Read32(section, p).value.1, names.count, -1, total);
          if names.entries.end.Some? {
            SubSectionsFound(section, names.entries.end.value, nameType, total, names);
          }
        }
      } else {
        SubSectionsFound(section, if nameType == SUB_SECTION_TYPE_FUNC then p else p + size, nameType, total, seen);
      }
    }
  }

  lemma SectionFound(section: Section, total: nat)
    ensures var (wellFormed, found) := ParseNameSection(section, total);
            WellFound(found, total) && (wellFormed && found.Names? ==> found.entries.end.Some?)
  {
    hide Ascending, ParseEntries, ParseSubSections;
    var len := Read32(section, 0);
    if len.Some? && len.value.0 == 4 && section.Has(len.value.1, 4) && section.data[len.value.1..len.value.1 + 4] == NAME {
      SubSectionsFound(section, len.value.1 + 4, -1, total, NoNames);
    }
  }

  /** After a successful load a lookup returns exactly the name the section gives to the index, and
      null exactly if it gives none. */
  lemma LookupIsExact(section: Section, total: nat, funcIndex: Word32, name: bytes)
    requires var (wellFormed, found) := ParseNameSection(section, total); wellFormed && found.Names?
    ensures var Names(count, entries) := ParseNameSection(section, total).1;
            var r := Lookup(TableOf(count, entries), funcIndex);
            && (r == Some(name) <==> Entry(funcIndex, name) in entries.list)
            && (r == None <==> forall e <- entries.list :: e.index != funcIndex)
  {
    hide ParseNameSection, Lookup, TableOf;
    SectionFound(section, total);
    var Names(count, entries) := ParseNameSection(section, total).1;
    var list := entries.list;
    LookupAnswers(count, entries, funcIndex);
    if k :| 0 <= k < |list| && list[k].index == funcIndex {
      LookupFinds(count, entries, total, k);
      assert list[k] in list;
    }
  }

  /** A full list is searched exactly. */
  lemma LookupFinds(count: Word32, entries: Entries, total: nat, k: nat)
    requires WellFound(Names(count, entries), total) && |entries.list| == count && k < count
    ensures Lookup(TableOf(count, entries), entries.list[k].index) == Some(entries.list[k].name)
  {
    hide Search;
    IndexesIncrease(count, entries, total);
    SearchFinds(Indexes(count, entries), k);
  }

  /** A name that a lookup returns belongs to an entry read. */
  lemma LookupAnswers(count: Word32, entries: Entries, funcIndex: Word32)
    ensures var r := Lookup(TableOf(count, entries), funcIndex);
            r.Some? ==> Entry(funcIndex, r.value) in entries.list
  {
    hide Search;
    if Lookup(TableOf(count, entries), funcIndex).Some? {
      SearchStopsAt(Indexes(count, entries), funcIndex);
      var k := Search(Indexes(count, entries), funcIndex, 0, count - 1).value;
      assert k < |entries.list| && entries.list[k].index == funcIndex;
    }
  }

  /** After a load that failed, which the loader tolerates, a lookup still never gives a wrong name. */
  lemma LookupIsNeverWrong(section: Section, total: nat, funcIndex: Word32)
    requires ParseNameSection(section, total).1.Names?
    ensures var Names(count, entries) := ParseNameSection(section, total).1;
            var r := Lookup(TableOf(count, entries), funcIndex);
            r.Some? ==> Entry(funcIndex, r.value) in entries.list
  {
    hide ParseNameSection, Lookup, TableOf;
    var Names(count, entries) := ParseNameSection(section, total).1;
    LookupAnswers(count, entries, funcIndex);
  }

  predicate AllFound(count: Word32, entries: Entries) {
    forall e <- entries.list :: Lookup(TableOf(count, entries), e.index) == Some(e.name)
  }

  /** The search for the last name loaded does not probe behind the indexes stored. */
  predicate LastIsReached(count: Word32, entries: Entries) {
    var n := |entries.list|;
    0 < n <= count ==> Reaches(0, count - 1, n - 1, if entries.nameless.Some? then n + 1 else n)
  }

  /** Whether the load succeeds or fails, every name loaded is found if and only if the last one is
      reached. */
  lemma NamesFoundIff(section: Section, total: nat)
    requires ParseNameSection(section, total).1.Names?
    ensures var Names(count, entries) := ParseNameSection(section, total).1;
            AllFound(count, entries) <==> LastIsReached(count, entries)
  {
    hide ParseNameSection, AllFound, LastIsReached;
    SectionFound(section, total);
    var Names(count, entries) := ParseNameSection(section, total).1;
    if LastIsReached(count, entries) {
      ReachedAreFound(count, entries, total);
    } else {
      UnreachedIsHidden(count, entries, total);
    }
  }

  lemma ReachedAreFound(count: Word32, entries: Entries, total: nat)
    requires WellFound(Names(count, entries), total) && LastIsReached(count, entries)
    ensures AllFound(count, entries)
  {
    hide Search, Reaches;
    var n := |entries.list|;
    var sorted := if entries.nameless.Some? then n + 1 else n;
    IndexesIncrease(count, entries, total);
    forall e | e in entries.list
      ensures Lookup(TableOf(count, entries), e.index) == Some(e.name)
    {
      var k :| 0 <= k < n && entries.list[k] == e;
      ReachesBelow(0, count - 1, k, n - 1, sorted);
      SearchReaches(Indexes(count, entries), 0, count - 1, k, sorted);
    }
  }

  lemma UnreachedIsHidden(count: Word32, entries: Entries, total: nat)
    requires WellFound(Names(count, entries), total) && !LastIsReached(count, entries)
    ensures !AllFound(count, entries)
  {
    hide Search, Reaches;
    var n := |entries.list|;
    IndexesIncrease(count, entries, total);
    SearchStrays(Indexes(count, entries), 0, count - 1, n - 1, if entries.nameless.Some? then n + 1 else n);
    var last := entries.list[n - 1];
    assert last in entries.list && Lookup(TableOf(count, entries), last.index) == None;
  }

  lemma IndexesIncrease(count: Word32, entries: Entries, total: nat)
    requires WellFound(Names(count, entries), total)
    ensures var sorted := |entries.list| + if entries.nameless.Some? then 1 else 0;
            Increasing(Indexes(count, entries), sorted)
            && forall i | sorted <= i < count :: Indexes(count, entries)[i] == 0
  {
  }

  // The compiler's side

  /** The entries as the compiler writes them to an offset: aligned, a zero behind every name. */
  function Emitted(entries: seq<Entry>, pos: nat): bytes {
    if entries == [] then []
    else
      var e, gap := entries[0], AlignUp(pos, 4) - pos;
      AlignUpGrows(pos, 4);
      seq(gap, _ => 0) + EmittedEntry(e) + Emitted(entries[1..], AlignUp(pos, 4) + |EmittedEntry(e)|)
  }

  function EmittedEntry(e: Entry): (b: bytes)
    ensures |b| == 7 + |e.name|
  {
    LE(e.index, 4) + LE(|e.name| + 1, 2) + e.name + [0]
  }

  /** A section with one function sub-section.  `size` is the one of the .wasm, which the compiler keeps. */
  function EmittedSection(entries: seq<Entry>, size: Word32): bytes {
    LE(4, 4) + NAME + LE(SUB_SECTION_TYPE_FUNC, 4) + LE(size, 4) + LE(|entries|, 4) + Emitted(entries, 20)
  }

  /** Names as the compiler accepts them, for functions there are. */
  predicate Emittable(entries: seq<Entry>, floor: int, total: nat) {
    && (forall e <- entries :: floor < e.index < total && |e.name| + 1 < TWO_16)
    && (forall i, j | 0 <= i < j < |entries| :: entries[i].index < entries[j].index)
  }

  lemma ReadAt(section: Section, pos: nat, p: nat, v: Word32)
    requires section.address % 4 == 0 && p == AlignUp(pos, 4) && p + 4 <= |section.data|
    requires section.data[p..p + 4] == LE(v, 4)
    ensures Read32(section, pos) == Some((v, p + 4))
  {
    hide LE, FromLE;
    AlignedAddress(section, pos, 4);
    Word32Back(v);
  }

  /** Only a section that is called "name" is accepted. */
  lemma NameIsRequired(section: Section, total: nat)
    requires ParseNameSection(section, total).0
    ensures var at := section.Aligned(0, 4);
            && at + 8 <= |section.data| && FromLE(section.data[at..at + 4]) == 4
            && forall k | 0 <= k < 4 :: section.data[at + 4 + k] == "name"[k] as int
  {
    hide ParseSubSections, FromLE;
    var at := section.Aligned(0, 4);
    forall k | 0 <= k < 4 ensures section.data[at + 4 + k] == "name"[k] as int {
      assert section.data[at + 4..at + 8][k] == NAME[k];
    }
  }

  /** A sub-section of another type, or an empty one, is skipped as long as its size says, if the types
      increase; if they do not, the section is malformed. */
  lemma OthersAreSkipped(section: Section, pos: nat, floor: int, total: nat, seen: FuncNames, nameType: Word32, size: Word32)
    requires section.address % 4 == 0 && pos % 4 == 0 && pos + 8 + size <= |section.data|
    requires section.data[pos..pos + 4] == LE(nameType, 4) && section.data[pos + 4..pos + 8] == LE(size, 4)
    requires nameType != 1 || size == 0
    ensures ParseSubSections(section, pos, floor, total, seen)
         == if nameType > floor then ParseSubSections(section, pos + 8 + size, nameType, total, seen) else (false, seen)
  {
    hide LE, ParseFuncNames, Read32;
    MultipleIsAligned(pos);
    MultipleIsAligned(pos + 4);
    ReadAt(section, pos, pos, nameType);
    ReadAt(section, pos + 4, pos + 4, size);
  }

  lemma MultipleIsAligned(pos: nat)
    requires pos % 4 == 0
    ensures AlignUp(pos, 4) == pos
  {
  }

  lemma AlignedAddress(section: Section, pos: nat, alignment: nat)
    requires section.address % 4 == 0 && (alignment == 2 || alignment == 4)
    ensures section.Aligned(pos, alignment) == AlignUp(pos, alignment)
  {
    hide AlignUp;
    AlignUpShifts(if alignment == 2 then section.address / 4 * 2 else section.address / 4, pos, alignment);
  }

  lemma AlignUpShifts(k: nat, n: nat, d: nat)
    requires d > 0
    ensures AlignUp(k * d + n, d) == k * d + AlignUp(n, d)
  {
    DivAddMultiple(k, d, n + d - 1);
    AddProducts(k, (n + d - 1) / d, d);
  }

  lemma LoadStringAt(section: Section, pos: nat, name: bytes)
    requires section.address % 4 == 0 && pos % 4 == 0 && |name| + 1 < TWO_16 && pos + 3 + |name| <= |section.data|
    requires section.data[pos..pos + 2] == LE(|name| + 1, 2)
    requires section.data[pos + 2..pos + 2 + |name|] == name && section.data[pos + 2 + |name|] == 0
    ensures LoadString(section, pos) == Some((name, pos + 3 + |name|))
  {
    hide LE, Section.Read, Section.Aligned, LoadString;
    ReadLength(section, pos, |name| + 1);
    LoadTerminated(section, pos, |name|);
  }

  lemma ReadLength(section: Section, pos: nat, n: nat)
    requires section.address % 4 == 0 && pos % 4 == 0 && n < TWO_16 && pos + 2 <= |section.data|
    requires section.data[pos..pos + 2] == LE(n, 2)
    ensures section.Read(pos, 2) == Some((n, pos + 2))
  {
    hide LE, FromLE, Section.Read, Section.Aligned;
    ReadHalf(section, pos);
    LengthBack(n);
  }

  lemma LoadTerminated(section: Section, pos: nat, n: nat)
    requires pos + 3 + n <= |section.data| && section.data[pos + 2 + n] == 0
    requires section.Read(pos, 2) == Some((n + 1, pos + 2))
    ensures LoadString(section, pos) == Some((section.data[pos + 2..pos + 2 + n], pos + 3 + n))
  {
    hide Section.Read, Section.Aligned;
  }

  lemma LengthBack(n: nat)
    requires n < TWO_16
    ensures FromLE(LE(n, 2)) == n
  {
    WordSizes();
    FromLEUndoesLE(n, 2);
  }

  lemma ReadHalf(section: Section, pos: nat)
    requires section.address % 4 == 0 && pos % 4 == 0 && pos + 2 <= |section.data|
    ensures section.Read(pos, 2) == Some((FromLE(section.data[pos..pos + 2]), pos + 2))
  {
    hide FromLE;
    AlignedAddress(section, pos, 2);
    EvenIsAligned(pos);
  }

  lemma EvenIsAligned(pos: nat)
    requires pos % 4 == 0
    ensures AlignUp(pos, 2) == pos
  {
    hide AlignUp;
    AlignUpIs(pos, 2);
  }

  lemma StringSlices(data: bytes, pos: nat, len: bytes, name: bytes)
    requires |len| == 2 && pos + 3 + |name| <= |data| && data[pos..pos + 3 + |name|] == len + name + [0]
    ensures data[pos..pos + 2] == len && data[pos + 2..pos + 2 + |name|] == name && data[pos + 2 + |name|] == 0
  {
    var b, n := data[pos..pos + 3 + |name|], 3 + |name|;
    SliceOfSlice(data, pos, n, 0, 2);
    SliceOfSlice(data, pos, n, 2, 2 + |name|);
    assert b[0..2] == len && b[2..2 + |name|] == name && data[pos + 2 + |name|] == b[2 + |name|] == 0;
  }

  /** The loader reads back the entries the compiler wrote. */
  lemma {:induction false} EmittedEntriesParse(section: Section, pos: nat, entries: seq<Entry>, floor: int, total: nat)
    requires section.address % 4 == 0 && Emittable(entries, floor, total) && pos <= |section.data|
    requires section.data[pos..] == Emitted(entries, pos)
    ensures ParseEntries(section, pos, |entries|, floor, total) == Entries(entries, None, Some(|section.data|))
    decreases |entries|
  {
    hide LE, Read32, LoadString, Emittable, Emitted, ParseEntries, AlignUp;
    if entries == [] {
      NothingEmitted(section, pos, floor, total);
    } else {
      var e, p := entries[0], AlignUp(pos, 4);
      AlignUpGrows(pos, 4);
      AlignUpIsAligned(pos);
      EntryInFront(section.data, pos, entries);
      RestIsEmittable(entries, floor, total);
      ReadAt(section, pos, p, e.index);
      LoadStringAt(section, p + 4, e.name);
      EmittedEntriesParse(section, p + 7 + |e.name|, entries[1..], e.index, total);
      ParseStep(section, pos, |entries|, floor, total);
      assert [e] + entries[1..] == entries;
    }
  }

  lemma NothingEmitted(section: Section, pos: nat, floor: int, total: nat)
    requires pos <= |section.data| && section.data[pos..] == Emitted([], pos)
    ensures ParseEntries(section, pos, 0, floor, total) == Entries([], None, Some(|section.data|))
  {
    assert |section.data[pos..]| == |section.data| - pos;
  }

  lemma AlignUpIsAligned(pos: nat)
    ensures AlignUp(pos, 4) % 4 == 0
  {
    hide AlignUp;
    AlignUpIs(pos, 4);
  }

  lemma RestIsEmittable(entries: seq<Entry>, floor: int, total: nat)
    requires entries != [] && Emittable(entries, floor, total)
    ensures floor < entries[0].index < total && |entries[0].name| + 1 < TWO_16
    ensures Emittable(entries[1..], entries[0].index, total)
  {
    assert entries[0] in entries;
    forall e | e in entries[1..]
      ensures entries[0].index < e.index < total && |e.name| + 1 < TWO_16
    {
      var i :| 0 < i < |entries| && entries[i] == e;
    }
  }

  lemma EntryInFront(data: bytes, pos: nat, entries: seq<Entry>)
    requires entries != [] && pos <= |data| && data[pos..] == Emitted(entries, pos)
    ensures var e, p := entries[0], AlignUp(pos, 4);
            var q := p + 7 + |e.name|;
            && q <= |data| && data[p..p + 4] == LE(e.index, 4)
            && data[p + 4..p + 6] == LE(|e.name| + 1, 2) && data[p + 6..q - 1] == e.name && data[q - 1] == 0
            && data[q..] == Emitted(entries[1..], q)
  {
    hide LE, EmittedEntry;
    AlignUpGrows(pos, 4);
    var e, p := entries[0], AlignUp(pos, 4);
    var gap, b, rest := seq(p - pos, _ => 0 as byte), EmittedEntry(e), Emitted(entries[1..], p + |EmittedEntry(e)|);
    Tail(data, pos, gap, b, rest);
    EntryAt(data, p, e);
  }

  lemma EntryAt(data: bytes, p: nat, e: Entry)
    requires p + 7 + |e.name| <= |data| && data[p..p + 7 + |e.name|] == EmittedEntry(e)
    ensures var q := p + 7 + |e.name|;
            && data[p..p + 4] == LE(e.index, 4) && data[p + 4..p + 6] == LE(|e.name| + 1, 2)
            && data[p + 6..q - 1] == e.name && data[q - 1] == 0
  {
    hide LE, EmittedEntry;
    var n := 7 + |e.name|;
    EntryPieces(e);
    SliceOfSlice(data, p, n, 0, 4);
    SliceOfSlice(data, p, n, 4, n);
    StringSlices(data, p + 4, LE(|e.name| + 1, 2), e.name);
  }

  lemma Tail(data: bytes, pos: nat, a: bytes, b: bytes, c: bytes)
    requires pos <= |data| && data[pos..] == a + b + c
    ensures var p := pos + |a|; p + |b| <= |data| && data[p..p + |b|] == b && data[p + |b|..] == c
  {
    var tail := data[pos..];
    assert |tail| == |data| - pos == |a| + |b| + |c|;
    assert data[pos + |a|..pos + |a| + |b|] == tail[|a|..|a| + |b|];
    assert data[pos + |a| + |b|..] == tail[|a| + |b|..];
  }

  lemma EntryPieces(e: Entry)
    ensures EmittedEntry(e)[0..4] == LE(e.index, 4) && EmittedEntry(e)[4..7 + |e.name|] == LE(|e.name| + 1, 2) + e.name + [0]
  {
    hide LE;
    assert EmittedEntry(e) == LE(e.index, 4) + (LE(|e.name| + 1, 2) + e.name + [0]);
  }

  /** And the whole section: well-formed, with the names that went into it. */
  lemma EmittedIsParsed(entries: seq<Entry>, size: Word32, address: nat, total: nat)
    requires Emittable(entries, -1, total) && |entries| <= total && |entries| < TWO_32 && address % 4 == 0
    requires 0 < size <= 4 + |Emitted(entries, 20)|
    ensures var data := EmittedSection(entries, size);
            ParseNameSection(Section(data, address), total)
            == (true, Names(|entries|, Entries(entries, None, Some(|data|))))
  {
    hide LE, Read32, Emitted, ParseEntries, Emittable;
    var s := Section(EmittedSection(entries, size), address);
    SectionPieces(entries, size);
    ReadAt(s, 0, 0, 4);
    ReadAt(s, 8, 8, SUB_SECTION_TYPE_FUNC);
    ReadAt(s, 12, 12, size);
    ReadAt(s, 16, 16, |entries|);
    EmittedEntriesParse(s, 20, entries, -1, total);
    var names := Names(|entries|, Entries(entries, None, Some(|s.data|)));
    assert ParseFuncNames(s, 16, total) == names;
    assert ParseHeader(s, 8, -1) == Some((SUB_SECTION_TYPE_FUNC, size, 16));
    assert ParseSubSections(s, |s.data|, SUB_SECTION_TYPE_FUNC, total, names) == (true, names);
    assert ParseSubSections(s, 8, -1, total, NoNames) == (true, names);
  }

  lemma SectionPieces(entries: seq<Entry>, size: Word32)
    ensures var d := EmittedSection(entries, size);
            && |d| >= 20 && d[0..4] == LE(4, 4) && d[4..8] == NAME && d[8..12] == LE(SUB_SECTION_TYPE_FUNC, 4)
            && d[12..16] == LE(size, 4) && d[16..20] == LE(|entries|, 4) && d[20..] == Emitted(entries, 20)
  {
    hide LE, Emitted;
  }

  /** The bytes of a section that announces three names and ends after the first. */
  function CutShortByte(i: nat): byte {
    match i
    case 0 => 4
    case 4 => 110 case 5 => 97 case 6 => 109 case 7 => 101
    case 8 => 1
    case 12 => 12
    case 16 => 3
    case 20 => 3
    case 24 => 2 case 26 => 97
    case _ => 0
  }

  /** Its load fails, keeps the name, and the name is not found. */
  lemma FailedLoadHidesNames(total: nat)
    requires total >= 4
    ensures var s := Section(seq(28, i requires 0 <= i < 28 => CutShortByte(i)), 0);
            var found := Names(3, Entries([Entry(3, [97])], None, None));
            && ParseNameSection(s, total) == (false, found)
            && Lookup(TableOf(3, found.entries), 3) == None
  {
    hide Read32, LoadString, CutShortByte;
    var s := Section(seq(28, i requires 0 <= i < 28 => CutShortByte(i)), 0);
    CutShortWords(s);
    var entries := ParseEntries(s, 20, 3, -1, total);
    assert ParseEntries(s, 28, 2, 3, total) == Entries([], None, None);
    assert entries == Entries([Entry(3, [97])], None, None);
    assert ParseFuncNames(s, 16, total) == Names(3, entries);
    assert ParseSubSections(s, 8, -1, total, NoNames) == (false, Names(3, entries));
    var indexes := Indexes(3, entries);
    assert Search(indexes, 3, 0, 2) == Search(indexes, 3, 2, 2) == Search(indexes, 3, 3, 2);
  }

  lemma CutShortWords(s: Section)
    requires s == Section(seq(28, i requires 0 <= i < 28 => CutShortByte(i)), 0)
    ensures Read32(s, 0) == Some((4, 4)) && s.data[4..8] == NAME
    ensures Read32(s, 8) == Some((1, 12)) && Read32(s, 12) == Some((12, 16)) && Read32(s, 16) == Some((3, 20))
    ensures Read32(s, 20) == Some((3, 24)) && LoadString(s, 24) == Some(([97], 28)) && Read32(s, 28) == None
  {
    hide Read32, LoadString, LE;
    ReadSmallWord(s, 0, 4);
    ReadSmallWord(s, 8, 1);
    ReadSmallWord(s, 12, 12);
    ReadSmallWord(s, 16, 3);
    ReadSmallWord(s, 20, 3);
    SmallLE(2);
    assert s.data[24..26] == [2, 0] && s.data[26..27] == [97];
    LoadStringAt(s, 24, [97]);
    ReadBehind(s);
  }

  lemma ReadBehind(s: Section)
    ensures Read32(s, |s.data|) == None
  {
  }

  lemma ReadSmallWord(s: Section, pos: nat, b: byte)
    requires s.address == 0 && pos % 4 == 0 && pos + 4 <= |s.data|
    requires s.data[pos] == b && s.data[pos + 1] == s.data[pos + 2] == s.data[pos + 3] == 0
    ensures Read32(s, pos) == Some((b, pos + 4))
  {
    hide LE, AlignUp;
    AlignUpIs(pos, 4);
    SmallLE(b);
    assert s.data[pos..pos + 4] == [b, 0, 0, 0];
    ReadAt(s, pos, pos, b);
  }

  lemma SmallLE(b: byte)
    ensures LE(b, 4) == [b, 0, 0, 0] && LE(b, 2) == [b, 0]
  {
    assert b % 256 == b && b / 256 == 0;
    assert LE(0, 1) == [0] && LE(0, 2) == [0, 0] && LE(0, 3) == [0, 0, 0];
  }
}
