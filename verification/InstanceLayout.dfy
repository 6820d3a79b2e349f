/// The data block of a module instance: its globals, and behind them its
/// tables.  The loader assigns the offsets of the globals, one pass computes the
/// size of the block, and instantiation fills it walking a pointer.
module InstanceLayout {
  import opened Bytes
  import opened Buffers

  /** A value of the runtime is a union of sixteen bytes, of which a type uses the first few. */
  type Value = b: bytes | |b| == 16 witness seq(16, _ => 0)

  const NULL_REF: Word32 := 0xFFFF_FFFF
  /** The fields of a table instance in front of its elements; the last two are cur_size and max_size. */
  const TABLE_HEADER: nat := 24

  datatype ValType = I32 | F32 | I64 | F64 | V128 | FuncRef | ExternRef {
    function Size(): nat {
      match this
      case V128 => 16
      case I64 | F64 => 8
      case _ => 4
    }
  }

  datatype ImportGlobal = ImportGlobal(valType: ValType, mutable: bool, linked: Value)

  datatype InitExpr = GetGlobal(index: nat) | RefNull | Const(value: Value)

  datatype Global = Global(valType: ValType, init: InitExpr)

  datatype Table = Table(elemType: byte, initSize: Word32, maxSize: Word32, possibleGrow: bool) {
    function Slots(): Word32 {
      if possibleGrow then maxSize else initSize
    }
  }

  datatype Offset = Fixed(base: Word32) | OfGlobal(index: nat)

  datatype Segment = Segment(active: bool, table: nat, offset: Offset, values: seq<Word32>)

  datatype Module = Module(importGlobals: seq<ImportGlobal>, globals: seq<Global>,
                           importTables: seq<Table>, tables: seq<Table>, behind: seq<byte>,
                           segments: seq<Segment>)
  {
    /** What WebAssembly validation has checked, and that no end of a segment passes for another one
        (see CheckIsWrongIff).  `behind` is what a reader finds behind the module's own tables when it
        takes it for the element types of more. */
    predicate Valid() {
      && (forall g <- globals :: g.init == RefNull ==> g.valType.Size() == 4)
      && (forall t <- AllTables() :: t.initSize <= t.Slots())
      && |behind| == |importTables|
      && (forall s <- segments | s.active ::
            && s.table < |AllTables()|
            && (Located(s) && Base(s) <= AllTables()[s.table].initSize ==> Base(s) + |s.values| < TWO_32))
    }

    /** The element type the source takes for table i of all: that of the module's own table i. */
    function StoredType(i: nat): byte
      requires i < |AllTables()| && |behind| == |importTables|
    {
      if i < |tables| then tables[i].elemType else behind[i - |tables|]
    }

    /** Imported tables are instantiated like the module's own. */
    function AllTables(): seq<Table> {
      importTables + tables
    }

    function GlobalCount(): nat {
      |importGlobals| + |globals|
    }

    function GlobalSize(i: nat): nat
      requires i < GlobalCount()
    {
      if i < |importGlobals| then importGlobals[i].valType.Size() else globals[i - |importGlobals|].valType.Size()
    }

    function GlobalsSize(n: nat): nat
      requires n <= GlobalCount()
    {
      if n == 0 then 0 else GlobalsSize(n - 1) + GlobalSize(n - 1)
    }

    /** An initialiser may read imported constants only. */
    predicate Readable(index: nat) {
      index < |importGlobals| && !importGlobals[index].mutable
    }

    /** The first n globals can be initialised. */
    predicate Initialisable(n: nat)
      requires n <= GlobalCount()
    {
      forall i | 0 <= i < n - |importGlobals| :: globals[i].init.GetGlobal? ==> Readable(globals[i].init.index)
    }

    function GlobalValue(i: nat): Value
      requires i < GlobalCount() && Initialisable(i + 1)
    {
      if i < |importGlobals| then importGlobals[i].linked
      else
        match globals[i - |importGlobals|].init
        case GetGlobal(index) => importGlobals[index].linked
        case RefNull => LE(NULL_REF, 4) + seq(12, _ => 0)
        case Const(value) => value
    }

    function GlobalBytes(i: nat): (b: bytes)
      requires i < GlobalCount() && Initialisable(i + 1)
      ensures |b| == GlobalSize(i)
    {
      GlobalValue(i)[..GlobalSize(i)]
    }

    function GlobalsImage(n: nat): (b: bytes)
      requires n <= GlobalCount() && Initialisable(n)
      ensures |b| == GlobalsSize(n)
    {
      if n == 0 then [] else GlobalsImage(n - 1) + GlobalBytes(n - 1)
    }

    function TableSpace(n: nat): nat
      requires n <= |AllTables()|
    {
      if n == 0 then 0 else TableSpace(n - 1) + TABLE_HEADER + 4 * AllTables()[n - 1].Slots()
    }

    /** Globals and tables. */
    function DataSize(): nat {
      GlobalsSize(GlobalCount()) + TableSpace(|AllTables()|)
    }

    // The contents of the tables

    predicate Located(s: Segment) {
      s.offset.OfGlobal? ==> Readable(s.offset.index)
    }

    function Base(s: Segment): nat
      requires Located(s)
    {
      match s.offset
      case Fixed(base) => base
      case OfGlobal(index) => FromLE(importGlobals[index].linked[..4])
    }

    predicate Fits(s: Segment) {
      Located(s) && s.table < |AllTables()| && Base(s) + |s.values| <= AllTables()[s.table].initSize
    }

    predicate Fillable(n: nat)
      requires n <= |segments|
    {
      forall i | 0 <= i < n :: segments[i].active ==> Fits(segments[i])
    }

    predicate Covers(i: nat, t: nat, j: nat)
      requires i < |segments| && Fillable(|segments|)
    {
      var s := segments[i];
      s.active && s.table == t && Base(s) <= j < Base(s) + |s.values|
    }

    /** The elements of all tables after the first n segments. */
    function Filled(n: nat): (elems: seq<seq<Word32>>)
      requires Valid() && n <= |segments| && Fillable(n)
      ensures Shaped(elems)
    {
      if n == 0 then seq(|AllTables()|, t requires 0 <= t < |AllTables()| => seq(AllTables()[t].Slots(), _ => NULL_REF))
      else
        var s, before := segments[n - 1], Filled(n - 1);
        if s.active then before[s.table := Overlaid(before[s.table], Base(s), s.values)] else before
    }

    predicate Shaped(elems: seq<seq<Word32>>) {
      |elems| == |AllTables()| && forall t | 0 <= t < |elems| :: |elems[t]| == AllTables()[t].Slots()
    }
  }

  function Overlaid(elems: seq<Word32>, base: nat, values: seq<Word32>): (r: seq<Word32>)
    requires base + |values| <= |elems|
    ensures |r| == |elems|
  {
    elems[..base] + values + elems[base + |values|..]
  }

  /** A slot holds what the last segment that covers it put there. */
  lemma {:induction false} SlotIsLastWritten(m: Module, n: nat, i: nat, t: nat, j: nat)
    requires m.Valid() && i < n <= |m.segments| && m.Fillable(|m.segments|)
    requires t < |m.AllTables()| && j < m.AllTables()[t].Slots()
    requires m.Covers(i, t, j) && forall k | i < k < n :: !m.Covers(k, t, j)
    ensures m.Filled(n)[t][j] == m.segments[i].values[j - m.Base(m.segments[i])]
  {
    SlotStep(m, n, t, j);
    if i < n - 1 {
      SlotIsLastWritten(m, n - 1, i, t, j);
    }
  }

  /** And a null reference if no segment covers it. */
  lemma {:induction false} UncoveredSlotIsNull(m: Module, n: nat, t: nat, j: nat)
    requires m.Valid() && n <= |m.segments| && m.Fillable(|m.segments|)
    requires t < |m.AllTables()| && j < m.AllTables()[t].Slots()
    requires forall k | 0 <= k < n :: !m.Covers(k, t, j)
    ensures m.Filled(n)[t][j] == NULL_REF
  {
    if n == 0 {
      AllNull(m, t);
    } else {
      SlotStep(m, n, t, j);
      UncoveredSlotIsNull(m, n - 1, t, j);
    }
  }

  lemma SlotStep(m: Module, n: nat, t: nat, j: nat)
    requires m.Valid() && 0 < n <= |m.segments| && m.Fillable(|m.segments|)
    requires t < |m.AllTables()| && j < m.AllTables()[t].Slots()
    ensures m.Filled(n)[t][j]
         == if m.Covers(n - 1, t, j) then m.segments[n - 1].values[j - m.Base(m.segments[n - 1])]
            else m.Filled(n - 1)[t][j]
  {
  }

  // The bytes of the tables

  function Words(ws: seq<Word32>): (b: bytes)
    ensures |b| == 4 * |ws|
  {
    if ws == [] then [] else Words(ws[..|ws| - 1]) + LE(ws[|ws| - 1], 4)
  }

  lemma {:induction false} WordsJoin(a: seq<Word32>, b: seq<Word32>)
    ensures Words(a + b) == Words(a) + Words(b)
  {
    if b == [] {
      assert a + b == a;
    } else {
      var n := |b| - 1;
      WordsJoin(a, b[..n]);
      assert (a + b)[..|a + b| - 1] == a + b[..n];
      Regroup3(Words(a), Words(b[..n]), LE(b[n], 4));
    }
  }

  lemma WordsOne(v: Word32)
    ensures Words([v]) == LE(v, 4)
  {
    assert [v][..0] == [];
  }

  lemma WordsAround(a: seq<Word32>, v: Word32, b: seq<Word32>)
    ensures Words(a + [v] + b) == Words(a) + LE(v, 4) + Words(b)
  {
    hide Words, LE;
    WordsOne(v);
    WordsJoin(a, [v]);
    WordsJoin(a + [v], b);
  }

  lemma {:induction false} NullWords(n: nat)
    ensures Words(seq(n, _ => NULL_REF)) == seq(4 * n, _ => 255 as byte)
  {
    if n > 0 {
      NullWords(n - 1);
      assert seq(n, _ => NULL_REF)[..n - 1] == seq(n - 1, _ => NULL_REF);
      assert LE(NULL_REF, 4) == [255, 255, 255, 255];
    }
  }

  /** The header of a table at position pos of a block that held `was`. */
  function Head(table: Table, elemType: byte, was: bytes, pos: nat): (b: bytes)
    requires pos + 16 <= |was|
    ensures |b| == TABLE_HEADER
  {
    [elemType] + was[pos + 1..pos + 16] + LE(table.initSize, 4) + LE(table.Slots(), 4)
  }

  /** The first n tables at position pos of a block that held `was`. */
  function TablesImage(m: Module, was: bytes, pos: nat, elems: seq<seq<Word32>>, n: nat): (b: bytes)
    requires n <= |m.AllTables()| && |m.behind| == |m.importTables| && m.Shaped(elems)
    requires pos + m.TableSpace(n) <= |was|
    ensures |b| == m.TableSpace(n)
  {
    if n == 0 then []
    else
      TablesImage(m, was, pos, elems, n - 1)
      + (Head(m.AllTables()[n - 1], m.StoredType(n - 1), was, pos + m.TableSpace(n - 1)) + Words(elems[n - 1]))
  }

  /** The image around one slot: another value in the slot leaves the rest as it is. */
  lemma {:induction false} AroundSlot(m: Module, was: bytes, pos: nat, elems: seq<seq<Word32>>, n: nat, t: nat, j: nat, v: Word32)
      returns (front: bytes, back: bytes)
    requires t < n <= |m.AllTables()| && |m.behind| == |m.importTables| && m.Shaped(elems) && pos + m.TableSpace(n) <= |was|
    requires j < m.AllTables()[t].Slots()
    ensures |front| == m.TableSpace(t) + TABLE_HEADER + 4 * j
    ensures TablesImage(m, was, pos, elems, n) == front + LE(elems[t][j], 4) + back
    ensures TablesImage(m, was, pos, elems[t := Overlaid(elems[t], j, [v])], n) == front + LE(v, 4) + back
  {
    hide LE, Words, Head, Overlaid;
    var after := elems[t := Overlaid(elems[t], j, [v])];
    var ws, head := elems[n - 1], Head(m.AllTables()[n - 1], m.StoredType(n - 1), was, pos + m.TableSpace(n - 1));
    if t < n - 1 {
      var rest;
      front, rest := AroundSlot(m, was, pos, elems, n - 1, t, j, v);
      back := rest + (head + Words(ws));
      Regroup4(front, LE(elems[t][j], 4), rest, head + Words(ws));
      Regroup4(front, LE(v, 4), rest, head + Words(ws));
    } else {
      SameTables(m, was, pos, elems, after, t);
      OverlaidWords(ws, j, v);
      var before := TablesImage(m, was, pos, elems, t);
      front, back := before + (head + Words(ws[..j])), Words(ws[j + 1..]);
      RegroupSlot(before, head, Words(ws[..j]), LE(ws[j], 4), back);
      RegroupSlot(before, head, Words(ws[..j]), LE(v, 4), back);
    }
  }

  lemma OverlaidWords(ws: seq<Word32>, j: nat, v: Word32)
    requires j < |ws|
    ensures Words(ws) == Words(ws[..j]) + LE(ws[j], 4) + Words(ws[j + 1..])
    ensures Words(Overlaid(ws, j, [v])) == Words(ws[..j]) + LE(v, 4) + Words(ws[j + 1..])
  {
    hide Words, LE;
    assert ws == ws[..j] + [ws[j]] + ws[j + 1..];
    WordsAround(ws[..j], ws[j], ws[j + 1..]);
    WordsAround(ws[..j], v, ws[j + 1..]);
  }

  lemma RegroupSlot(a: bytes, b: bytes, c: bytes, d: bytes, e: bytes)
    ensures a + (b + (c + d + e)) == a + (b + c) + d + e
  {
  }

  lemma {:induction false} SameTables(m: Module, was: bytes, pos: nat, a: seq<seq<Word32>>, b: seq<seq<Word32>>, n: nat)
    requires n <= |m.AllTables()| && |m.behind| == |m.importTables| && m.Shaped(a) && m.Shaped(b) && pos + m.TableSpace(n) <= |was|
    requires a[..n] == b[..n]
    ensures TablesImage(m, was, pos, a, n) == TablesImage(m, was, pos, b, n)
  {
    if n > 0 {
      assert a[..n - 1] == a[..n][..n - 1] && b[..n - 1] == b[..n][..n - 1] && a[n - 1] == a[..n][n - 1];
      SameTables(m, was, pos, a, b, n - 1);
    }
  }

  // The loader

  /** The offsets the loader assigns to imported and own globals. */
  ghost predicate Assigned(m: Module, importOffsets: array<nat>, offsets: array<nat>)
    reads importOffsets, offsets
  {
    && importOffsets.Length == |m.importGlobals| && offsets.Length == |m.globals|
    && (forall i | 0 <= i < importOffsets.Length :: importOffsets[i] == m.GlobalsSize(i))
    && (forall i | 0 <= i < offsets.Length :: offsets[i] == m.GlobalsSize(|m.importGlobals| + i))
  }

  lemma NoGlobals(m: Module)
    ensures m.GlobalsSize(0) == 0
  {
  }

  lemma OneMoreGlobal(m: Module, i: nat)
    requires i < m.GlobalCount()
    ensures m.GlobalsSize(i + 1) == m.GlobalsSize(i) + m.GlobalSize(i)
  {
  }

  method LoadImportGlobals(m: Module) returns (offsets: array<nat>, dataSize: nat)
    ensures fresh(offsets) && offsets.Length == |m.importGlobals| && dataSize == m.GlobalsSize(|m.importGlobals|)
    ensures forall i | 0 <= i < offsets.Length :: offsets[i] == m.GlobalsSize(i)
  {
    hide Module.GlobalsSize;
    NoGlobals(m);
    offsets := new nat[|m.importGlobals|];
    var offset := 0;
    dataSize := 0;
    for i := 0 to |m.importGlobals|
      invariant offset == dataSize == m.GlobalsSize(i)
      invariant forall k | 0 <= k < i :: offsets[k] == m.GlobalsSize(k)
    {
      var size := m.importGlobals[i].valType.Size();
      OneMoreGlobal(m, i);
      offsets[i] := offset;
      offset := offset + size;
      dataSize := dataSize + size;
    }
  }

  method LoadGlobals(m: Module, importOffsets: array<nat>, importSize: nat)
      returns (offsets: array<nat>, dataSize: nat)
    requires importOffsets.Length == |m.importGlobals| && importSize == m.GlobalsSize(|m.importGlobals|)
    requires forall i | 0 <= i < importOffsets.Length :: importOffsets[i] == m.GlobalsSize(i)
    ensures fresh(offsets) && Assigned(m, importOffsets, offsets) && dataSize == m.GlobalsSize(m.GlobalCount())
  {
    hide Module.GlobalsSize;
    offsets := new nat[|m.globals|];
    var n := |m.importGlobals|;
    if n > 0 {
      OneMoreGlobal(m, n - 1);
    } else {
      NoGlobals(m);
    }
    var offset := if n > 0 then importOffsets[n - 1] + m.importGlobals[n - 1].valType.Size() else 0;
    dataSize := importSize;
    for i := 0 to |m.globals|
      invariant offset == dataSize == m.GlobalsSize(n + i)
      invariant forall k | 0 <= k < importOffsets.Length :: importOffsets[k] == m.GlobalsSize(k)
      invariant forall k | 0 <= k < i :: offsets[k] == m.GlobalsSize(n + k)
    {
      var size := m.globals[i].valType.Size();
      OneMoreGlobal(m, n + i);
      offsets[i] := offset;
      offset := offset + size;
      dataSize := dataSize + size;
    }
  }

  // The instantiator

  /** The first loop: imported globals. */
  method InstantiateImports(m: Module, importOffsets: array<nat>, offsets: array<nat>, block: array<byte>, data: nat)
      returns (p: nat)
    requires Assigned(m, importOffsets, offsets) && data + m.GlobalsSize(m.GlobalCount()) <= block.Length
    modifies block
    ensures p == data + m.GlobalsSize(|m.importGlobals|)
    ensures Written(block[..], old(block[..]), old(block[..data]) + m.GlobalsImage(|m.importGlobals|))
  {
    ghost var was, front := block[..], block[..data];
    p := data;
    for i := 0 to |m.importGlobals|
      invariant p == data + m.GlobalsSize(i) && Written(block[..], was, front + m.GlobalsImage(i))
    {
      assert importOffsets[i] == p - data;
      SizesGrow(m, i + 1, m.GlobalCount());
      var src := m.importGlobals[i].linked[..m.importGlobals[i].valType.Size()];
      p := Put(block, p, src, was, front + m.GlobalsImage(i));
      Regroup3(front, m.GlobalsImage(i), src);
    }
  }

  lemma {:induction false} SizesGrow(m: Module, i: nat, n: nat)
    requires i <= n <= m.GlobalCount()
    ensures m.GlobalsSize(i) <= m.GlobalsSize(n)
  {
    if i < n {
      SizesGrow(m, i, n - 1);
    }
  }

  /** Whether an initialiser may read the global. */
  method CheckGlobalInitExpr(m: Module, index: nat) returns (ok: bool)
    ensures ok == m.Readable(index)
  {
    if index >= m.GlobalCount() {
      return false;
    }
    if index >= |m.importGlobals| {
      return false;
    }
    return !m.importGlobals[index].mutable;
  }

  /** The switch over the kinds of initialisers: the bytes it writes. */
  method EvalInitExpr(m: Module, i: nat) returns (ok: bool, src: bytes)
    requires m.Valid() && i < |m.globals| && m.Initialisable(|m.importGlobals| + i)
    ensures ok == m.Initialisable(|m.importGlobals| + i + 1)
    ensures ok ==> src == m.GlobalBytes(|m.importGlobals| + i)
  {
    var g := m.globals[i];
    ok, src := true, [];
    match g.init {
      case GetGlobal(index) =>
        ok := CheckGlobalInitExpr(m, index);
        if ok {
          src := m.importGlobals[index].linked[..g.valType.Size()];
        }
      case RefNull =>
        src := LE(NULL_REF, 4);
      case Const(value) =>
        src := value[..g.valType.Size()];
    }
  }

  method InstantiateGlobals(m: Module, importOffsets: array<nat>, offsets: array<nat>, block: array<byte>, data: nat)
      returns (ok: bool)
    requires m.Valid() && Assigned(m, importOffsets, offsets)
    requires data + m.GlobalsSize(m.GlobalCount()) <= block.Length
    modifies block
    ensures ok == m.Initialisable(m.GlobalCount())
    ensures ok ==> Written(block[..], old(block[..]), old(block[..data]) + m.GlobalsImage(m.GlobalCount()))
  {
    hide LE, Written, Module.GlobalBytes, Module.Valid, Module.GlobalsSize;
    ghost var was, front := block[..], block[..data];
    var n, p := |m.importGlobals|, 0;
    p := InstantiateImports(m, importOffsets, offsets, block, data);
    for i := 0 to |m.globals|
      invariant m.Initialisable(n + i)
      invariant p == data + m.GlobalsSize(n + i) && Written(block[..], was, front + m.GlobalsImage(n + i))
    {
      assert offsets[i] == p - data;
      SizesGrow(m, n + i + 1, m.GlobalCount());
      OneMoreGlobal(m, n + i);
      var src;
      ok, src := EvalInitExpr(m, i);
      if !ok {
        return;
      }
      p := Put(block, p, src, was, front + m.GlobalsImage(n + i));
      Regroup3(front, m.GlobalsImage(n + i), src);
    }
    assert p - data == m.GlobalsSize(m.GlobalCount());
    ok := true;
  }

  lemma {:induction false} SpaceGrows(m: Module, i: nat, n: nat)
    requires i <= n <= |m.AllTables()|
    ensures m.TableSpace(i) <= m.TableSpace(n)
  {
    if i < n {
      SpaceGrows(m, i, n - 1);
    }
  }

  lemma NoTables(m: Module, was: bytes, pos: nat, elems: seq<seq<Word32>>)
    requires |m.behind| == |m.importTables| && m.Shaped(elems) && pos <= |was|
    ensures m.TableSpace(0) == 0 && TablesImage(m, was, pos, elems, 0) == []
  {
  }

  lemma AllNull(m: Module, t: nat)
    requires m.Valid() && t < |m.AllTables()|
    ensures m.Filled(0)[t] == seq(m.AllTables()[t].Slots(), _ => NULL_REF)
  {
  }

  lemma OneMoreTable(m: Module, was: bytes, pos: nat, elems: seq<seq<Word32>>, i: nat)
    requires i < |m.AllTables()| && |m.behind| == |m.importTables| && m.Shaped(elems)
    requires pos + m.TableSpace(i + 1) <= |was|
    ensures var t := m.AllTables()[i];
            && m.TableSpace(i + 1) == m.TableSpace(i) + TABLE_HEADER + 4 * t.Slots()
            && TablesImage(m, was, pos, elems, i + 1)
               == TablesImage(m, was, pos, elems, i) + (Head(t, m.StoredType(i), was, pos + m.TableSpace(i)) + Words(elems[i]))
  {
  }

  /** One table with all its slots null. */
  method PutTable(table: Table, elemType: byte, block: array<byte>, pos: nat, ghost was: bytes, ghost image: bytes)
      returns (next: nat)
    requires Written(block[..], was, image) && pos == |image|
    requires pos + TABLE_HEADER + 4 * table.Slots() <= block.Length
    modifies block
    ensures next == pos + TABLE_HEADER + 4 * table.Slots()
    ensures Written(block[..], was,
                    image + (Head(table, elemType, was, pos) + Words(seq(table.Slots(), _ => NULL_REF))))
  {
    hide LE, Words, Written;
    WrittenFits(block[..], was, image);
    ghost var hole, cur, max := was[pos + 1..pos + 16], LE(table.initSize, 4), LE(table.Slots(), 4);
    next := Put(block, pos, [elemType], was, image);
    ghost var front := image + [elemType];
    HoleBehind(was, front, pos, hole);
    Skip(block[..], was, front, hole);
    next := Put(block, pos + 16, LE(table.initSize, 4), was, front + hole);
    next := Put(block, next, LE(table.Slots(), 4), was, front + hole + cur);
    ghost var nulls := seq(4 * table.Slots(), _ => 255 as byte);
    next := Put(block, next, seq(4 * table.Slots(), _ => 255 as byte), was, front + hole + cur + max);
    NullWords(table.Slots());
    RegroupTable(image, [elemType], hole, cur, max, nulls);
  }

  lemma HoleBehind(was: bytes, front: bytes, pos: nat, hole: bytes)
    requires pos + 16 <= |was| && |front| == pos + 1 && hole == was[pos + 1..pos + 16]
    ensures hole <= was[|front|..]
  {
  }

  lemma RegroupTable(a: bytes, b: bytes, c: bytes, d: bytes, e: bytes, f: bytes)
    ensures a + b + c + d + e + f == a + (b + c + d + e + f)
  {
  }

  lemma WrittenFits(buf: bytes, was: bytes, image: bytes)
    requires Written(buf, was, image)
    ensures |buf| == |was| && |image| <= |was|
  {
  }

  method ReadType(m: Module, i: nat) returns (elemType: byte)
    requires i < |m.AllTables()| && |m.behind| == |m.importTables|
    ensures elemType == m.StoredType(i)
  {
    elemType := if i < |m.tables| then m.tables[i].elemType else m.behind[i - |m.tables|];
  }

  lemma BehindMatches(m: Module)
    requires m.Valid()
    ensures |m.behind| == |m.importTables|
  {
  }

  /** Without imported tables every table gets its own element type. */
  lemma OwnTypesAreRight(m: Module, i: nat)
    requires m.importTables == [] && m.behind == [] && i < |m.AllTables()|
    ensures m.StoredType(i) == m.AllTables()[i].elemType
  {
  }

  /** The first loop over the tables; `starts` are the pointers to the table instances.  The element type
      is looked up among the module's own tables by the number of the table among all: `pastEnd` is
      whether that read behind the last of them. */
  method PutTables(m: Module, block: array<byte>, first: nat, ghost was: bytes, ghost front: bytes)
      returns (starts: array<nat>, pastEnd: bool)
    requires m.Valid() && Written(block[..], was, front) && first == |front|
    requires first + m.TableSpace(|m.AllTables()|) <= block.Length
    modifies block
    ensures fresh(starts) && starts.Length == |m.AllTables()|
    ensures forall t | 0 <= t < starts.Length :: starts[t] == first + m.TableSpace(t)
    ensures |was| == block.Length && (pastEnd <==> m.importTables != [])
    ensures Written(block[..], was, front + TablesImage(m, was, first, m.Filled(0), |m.AllTables()|))
  {
    hide LE, Words, Head, Written, Module.Valid, Module.TableSpace, Module.Filled, TablesImage, Module.StoredType;
    ghost var elems := m.Filled(0);
    BehindMatches(m);
    WrittenFits(block[..], was, front);
    NoTables(m, was, first, elems);
    assert front + [] == front;
    starts := new nat[|m.importTables| + |m.tables|];
    pastEnd := false;
    var p := first;
    for i := 0 to starts.Length
      invariant pastEnd <==> i > |m.tables|
      invariant p == first + m.TableSpace(i)
      invariant forall t | 0 <= t < i :: starts[t] == first + m.TableSpace(t)
      invariant i <= |m.AllTables()| && first + m.TableSpace(i) <= |was|
      invariant Written(block[..], was, front + TablesImage(m, was, first, elems, i))
    {
      var table := if i < |m.importTables| then m.importTables[i] else m.tables[i - |m.importTables|];
      SpaceGrows(m, i + 1, |m.AllTables()|);
      OneMoreTable(m, was, first, elems, i);
      AllNull(m, i);
      starts[i] := p;
      var elemType := ReadType(m, i);
      pastEnd := pastEnd || i >= |m.tables|;
      ghost var image, one := TablesImage(m, was, first, elems, i), Head(table, elemType, was, p) + Words(elems[i]);
      p := PutTable(table, elemType, block, p, was, front + image);
      Regroup3(front, image, one);
    }
  }

  // Reading the block

  /** From position data on the block holds the globals and tables with these elements; the rest of
      it is as it was. */
  ghost predicate Holds(m: Module, block: bytes, was: bytes, data: nat, elems: seq<seq<Word32>>) {
    && m.Initialisable(m.GlobalCount()) && m.Shaped(elems) && |m.behind| == |m.importTables|
    && data + m.DataSize() <= |was|
    && Written(block, was, was[..data] + m.GlobalsImage(m.GlobalCount())
                           + TablesImage(m, was, data + m.GlobalsSize(m.GlobalCount()), elems, |m.AllTables()|))
  }

  lemma {:induction false} GlobalAt(m: Module, k: nat, n: nat)
    requires k < n <= m.GlobalCount() && m.Initialisable(n)
    ensures m.GlobalsSize(k) + m.GlobalSize(k) <= m.GlobalsSize(n)
    ensures m.GlobalsImage(n)[m.GlobalsSize(k)..m.GlobalsSize(k) + m.GlobalSize(k)] == m.GlobalBytes(k)
  {
    hide Module.GlobalBytes;
    if k < n - 1 {
      GlobalAt(m, k, n - 1);
    }
  }

  lemma {:induction false} HeadAt(m: Module, was: bytes, pos: nat, elems: seq<seq<Word32>>, t: nat, n: nat)
    requires t < n <= |m.AllTables()| && |m.behind| == |m.importTables| && m.Shaped(elems) && pos + m.TableSpace(n) <= |was|
    ensures m.TableSpace(t) + TABLE_HEADER <= m.TableSpace(n)
    ensures TablesImage(m, was, pos, elems, n)[m.TableSpace(t)..m.TableSpace(t) + TABLE_HEADER]
         == Head(m.AllTables()[t], m.StoredType(t), was, pos + m.TableSpace(t))
  {
    hide Head, Words;
    var front := TablesImage(m, was, pos, elems, n - 1);
    var head := Head(m.AllTables()[n - 1], m.StoredType(n - 1), was, pos + m.TableSpace(n - 1));
    var at := m.TableSpace(t);
    if t < n - 1 {
      HeadAt(m, was, pos, elems, t, n - 1);
      SliceOfFront(front, head + Words(elems[n - 1]), at, at + TABLE_HEADER);
    } else {
      SliceBehind(front, head + Words(elems[n - 1]), 0, TABLE_HEADER);
      SliceOfFront(head, Words(elems[n - 1]), 0, TABLE_HEADER);
    }
  }

  /** A slice of the image is the slice of the block. */
  lemma SliceOfBlock(block: bytes, was: bytes, a: bytes, b: bytes, c: bytes, i: nat, j: nat)
    requires Written(block, was, a + b + c) && i <= j
    ensures j <= |b| ==> block[|a| + i..|a| + j] == b[i..j]
    ensures j <= |c| ==> block[|a| + |b| + i..|a| + |b| + j] == c[i..j]
  {
  }

  function TableStart(m: Module, data: nat, t: nat): nat
    requires t < |m.AllTables()|
  {
    data + m.GlobalsSize(m.GlobalCount()) + m.TableSpace(t)
  }

  /** A reader that uses the loader's offset finds the global. */
  lemma BlockHoldsGlobal(m: Module, block: bytes, was: bytes, data: nat, elems: seq<seq<Word32>>, k: nat)
    requires Holds(m, block, was, data, elems) && k < m.GlobalCount()
    ensures var at := data + m.GlobalsSize(k);
            at + m.GlobalSize(k) <= |block| && block[at..at + m.GlobalSize(k)] == m.GlobalBytes(k)
  {
    hide Module.GlobalBytes, Module.GlobalsImage, Module.GlobalsSize, Module.TableSpace, TablesImage;
    var n, tables := m.GlobalCount(), |m.AllTables()|;
    GlobalAt(m, k, n);
    SliceOfBlock(block, was, was[..data], m.GlobalsImage(n),
                 TablesImage(m, was, data + m.GlobalsSize(n), elems, tables),
                 m.GlobalsSize(k), m.GlobalsSize(k) + m.GlobalSize(k));
  }

  /** A reader that follows the pointer to a table finds its sizes. */
  lemma BlockHoldsSizes(m: Module, block: bytes, was: bytes, data: nat, elems: seq<seq<Word32>>, t: nat)
    requires Holds(m, block, was, data, elems) && t < |m.AllTables()|
    ensures var at, table := TableStart(m, data, t), m.AllTables()[t];
            && at + TABLE_HEADER <= |block| && block[at] == m.StoredType(t)
            && FromLE(block[at + 16..at + 20]) == table.initSize
            && FromLE(block[at + 20..at + 24]) == if table.possibleGrow then table.maxSize else table.initSize
  {
    hide Module.GlobalsImage, Module.GlobalsSize, Module.StoredType, Words, LE, FromLE;
    var n, tables := m.GlobalCount(), |m.AllTables()|;
    var first, table, at := data + m.GlobalsSize(n), m.AllTables()[t], m.TableSpace(t);
    var image := TablesImage(m, was, first, elems, tables);
    HeadAt(m, was, first, elems, t, tables);
    HeadFields(table, m.StoredType(t), was, first + at);
    SliceOfSlice(image, at, TABLE_HEADER, 0, 1);
    SliceOfBlock(block, was, was[..data], m.GlobalsImage(n), image, at, at + 1);
    SliceOfSlice(image, at, TABLE_HEADER, 16, 20);
    SliceOfSlice(image, at, TABLE_HEADER, 20, 24);
    SliceOfBlock(block, was, was[..data], m.GlobalsImage(n), image, at + 16, at + 20);
    SliceOfBlock(block, was, was[..data], m.GlobalsImage(n), image, at + 20, at + 24);
    Word32Back(table.initSize);
    Word32Back(table.Slots());
  }

  lemma HeadFields(table: Table, elemType: byte, was: bytes, pos: nat)
    requires pos + 16 <= |was|
    ensures var head := Head(table, elemType, was, pos);
            head[0..1] == [elemType] && head[16..20] == LE(table.initSize, 4) && head[20..24] == LE(table.Slots(), 4)
  {
    hide LE;
  }

  /** And its elements. */
  lemma BlockHoldsElement(m: Module, block: bytes, was: bytes, data: nat, elems: seq<seq<Word32>>, t: nat, j: nat)
    requires Holds(m, block, was, data, elems) && t < |m.AllTables()| && j < m.AllTables()[t].Slots()
    ensures var at := TableStart(m, data, t) + TABLE_HEADER + 4 * j;
            at + 4 <= |block| && FromLE(block[at..at + 4]) == elems[t][j]
  {
    hide Module.GlobalsImage, Module.GlobalsSize, Words, LE, FromLE, Head;
    var n, tables, v := m.GlobalCount(), |m.AllTables()|, elems[t][j];
    var first, at := data + m.GlobalsSize(n), m.TableSpace(t) + TABLE_HEADER + 4 * j;
    var image := TablesImage(m, was, first, elems, tables);
    var front, back := AroundSlot(m, was, first, elems, tables, t, j, v);
    assert image[at..at + 4] == LE(v, 4);
    SliceOfBlock(block, was, was[..data], m.GlobalsImage(n), image, at, at + 4);
    Word32Back(v);
  }

  // What the initialisers put there

  /** An imported global holds what it is linked to. */
  lemma BlockHoldsLinked(m: Module, block: bytes, was: bytes, data: nat, elems: seq<seq<Word32>>, k: nat)
    requires Holds(m, block, was, data, elems) && k < |m.importGlobals|
    ensures var at, w := data + m.GlobalsSize(k), m.importGlobals[k].valType.Size();
            at + w <= |block| && block[at..at + w] == m.importGlobals[k].linked[..w]
  {
    hide Module.GlobalsImage, Module.GlobalsSize, Holds;
    BlockHoldsGlobal(m, block, was, data, elems, k);
  }

  /** The offset of the module's own global k. */
  function OwnStart(m: Module, data: nat, k: nat): nat
    requires k < |m.globals|
  {
    data + m.GlobalsSize(|m.importGlobals| + k)
  }

  /** A global initialised with global j is a copy of it, on as many bytes as both of them have. */
  lemma InitialisedByGlobal(m: Module, block: bytes, was: bytes, data: nat, elems: seq<seq<Word32>>, k: nat, j: nat, w: nat)
    requires Holds(m, block, was, data, elems) && k < |m.globals| && m.globals[k].init == GetGlobal(j)
    requires w <= m.globals[k].valType.Size() && (j < |m.importGlobals| ==> w <= m.importGlobals[j].valType.Size())
    ensures j < |m.importGlobals| && !m.importGlobals[j].mutable
    ensures var to, from := OwnStart(m, data, k), data + m.GlobalsSize(j);
            && to + w <= |block| && from + w <= |block|
            && block[to..to + w] == block[from..from + w]
  {
    hide Module.GlobalsImage, Module.GlobalsSize, Holds;
    var n := |m.importGlobals|;
    ReadsConstants(m, block, was, data, elems, k);
    BlockHoldsLinked(m, block, was, data, elems, j);
    BlockHoldsGlobal(m, block, was, data, elems, n + k);
    var to, from := OwnStart(m, data, k), data + m.GlobalsSize(j);
    SamePrefix(block[to..to + m.GlobalSize(n + k)], block[from..from + m.GlobalSize(j)], m.importGlobals[j].linked, w);
    SliceOfSlice(block, to, m.GlobalSize(n + k), 0, w);
    SliceOfSlice(block, from, m.GlobalSize(j), 0, w);
  }

  lemma ReadsConstants(m: Module, block: bytes, was: bytes, data: nat, elems: seq<seq<Word32>>, k: nat)
    requires Holds(m, block, was, data, elems) && k < |m.globals| && m.globals[k].init.GetGlobal?
    ensures m.Readable(m.globals[k].init.index)
  {
  }

  lemma SamePrefix(a: bytes, b: bytes, c: bytes, w: nat)
    requires a <= c && b <= c && w <= |a| && w <= |b|
    ensures a[0..w] == b[0..w]
  {
  }

  /** A constant is there in the width of its type. */
  lemma InitialisedByConst(m: Module, block: bytes, was: bytes, data: nat, elems: seq<seq<Word32>>, k: nat, value: Value)
    requires Holds(m, block, was, data, elems) && k < |m.globals| && m.globals[k].init == Const(value)
    ensures var t, at := m.globals[k].valType, OwnStart(m, data, k);
            var w := if t == V128 then 16 else if t == I64 || t == F64 then 8 else 4;
            at + w <= |block| && block[at..at + w] == value[..w]
  {
    hide Module.GlobalsImage, Module.GlobalsSize, Holds;
    BlockHoldsGlobal(m, block, was, data, elems, |m.importGlobals| + k);
  }

  /** And a null reference is the largest 32-bit word. */
  lemma InitialisedByNull(m: Module, block: bytes, was: bytes, data: nat, elems: seq<seq<Word32>>, k: nat)
    requires m.Valid() && Holds(m, block, was, data, elems) && k < |m.globals| && m.globals[k].init == RefNull
    ensures var at := OwnStart(m, data, k);
            at + 4 <= |block| && FromLE(block[at..at + 4]) == 0xFFFF_FFFF
  {
    hide Module.GlobalsImage, Module.GlobalsSize, Holds, LE, FromLE;
    BlockHoldsGlobal(m, block, was, data, elems, |m.importGlobals| + k);
    Word32Back(NULL_REF);
  }

  /** The base of a segment as a reader of the block finds it. */
  ghost function BaseIn(m: Module, block: bytes, data: nat, s: Segment): nat {
    match s.offset
    case Fixed(base) => base
    case OfGlobal(g) =>
      if g < m.GlobalCount() && data + m.GlobalsSize(g) + 4 <= |block|
      then FromLE(block[data + m.GlobalsSize(g)..data + m.GlobalsSize(g) + 4]) else 0
  }

  lemma BaseIsRead(m: Module, block: bytes, was: bytes, data: nat, elems: seq<seq<Word32>>, s: Segment)
    requires Holds(m, block, was, data, elems) && m.Located(s)
    ensures BaseIn(m, block, data, s) == m.Base(s)
  {
    hide Module.GlobalsImage, Module.GlobalsSize, Holds, FromLE;
    if s.offset.OfGlobal? {
      var g := s.offset.index;
      BlockHoldsLinked(m, block, was, data, elems, g);
      SliceOfSlice(block, data + m.GlobalsSize(g), m.GlobalSize(g), 0, 4);
      assert m.importGlobals[g].linked[..m.GlobalSize(g)][0..4] == m.importGlobals[g].linked[..4];
    }
  }

  /** Segment i puts its value number j - base in slot j of table t. */
  ghost predicate CoversIn(m: Module, block: bytes, data: nat, i: nat, t: nat, j: nat)
    requires i < |m.segments|
  {
    var s := m.segments[i];
    s.active && s.table == t && BaseIn(m, block, data, s) <= j < BaseIn(m, block, data, s) + |s.values|
  }

  /** A reader of slot j of table t finds what the last segment that covers it has there, and null if
      none does. */
  lemma BlockHoldsLastWritten(m: Module, block: bytes, was: bytes, data: nat, t: nat, j: nat)
    requires m.Valid() && m.Fillable(|m.segments|) && Holds(m, block, was, data, m.Filled(|m.segments|))
    requires t < |m.AllTables()| && j < m.AllTables()[t].Slots()
    ensures var at := TableStart(m, data, t) + TABLE_HEADER + 4 * j;
            && at + 4 <= |block|
            && (forall i | 0 <= i < |m.segments| && CoversIn(m, block, data, i, t, j)
                           && (forall k | i < k < |m.segments| :: !CoversIn(m, block, data, k, t, j)) ::
                  FromLE(block[at..at + 4]) == m.segments[i].values[j - BaseIn(m, block, data, m.segments[i])])
            && ((forall i | 0 <= i < |m.segments| :: !CoversIn(m, block, data, i, t, j))
                ==> FromLE(block[at..at + 4]) == 0xFFFF_FFFF)
  {
    hide Holds, Module.Filled, Module.Base, Module.Valid, BaseIn, FromLE, Module.GlobalsSize, Module.TableSpace;
    var n, elems := |m.segments|, m.Filled(|m.segments|);
    BlockHoldsElement(m, block, was, data, elems, t, j);
    forall i | 0 <= i < n && m.segments[i].active
      ensures m.Located(m.segments[i]) && BaseIn(m, block, data, m.segments[i]) == m.Base(m.segments[i])
    {
      assert m.Fits(m.segments[i]);
      BaseIsRead(m, block, was, data, elems, m.segments[i]);
    }
    forall i | 0 <= i < n ensures CoversIn(m, block, data, i, t, j) == m.Covers(i, t, j) {
    }
    forall i | 0 <= i < n && CoversIn(m, block, data, i, t, j)
               && (forall k | i < k < n :: !CoversIn(m, block, data, k, t, j))
      ensures elems[t][j] == m.segments[i].values[j - BaseIn(m, block, data, m.segments[i])]
    {
      SlotIsLastWritten(m, n, i, t, j);
    }
    if forall i | 0 <= i < n :: !CoversIn(m, block, data, i, t, j) {
      UncoveredSlotIsNull(m, n, t, j);
    }
  }

  // Filling the tables

  method ReadWord(block: array<byte>, pos: nat) returns (w: nat)
    requires pos + 4 <= block.Length
    ensures w == FromLE(block[pos..pos + 4])
  {
    w := FromLE(block[pos..pos + 4]);
  }

  method StoreElement(m: Module, block: array<byte>, start: nat, j: nat, v: Word32,
                      ghost was: bytes, ghost data: nat, ghost elems: seq<seq<Word32>>, ghost t: nat)
    requires Holds(m, block[..], was, data, elems) && t < |m.AllTables()| && start == TableStart(m, data, t)
    requires j < m.AllTables()[t].Slots()
    modifies block
    ensures Holds(m, block[..], was, data, elems[t := Overlaid(elems[t], j, [v])])
  {
    hide LE, Overlaid, TablesImage, Module.GlobalsImage;
    ghost var n, tables := m.GlobalCount(), |m.AllTables()|;
    ghost var first := data + m.GlobalsSize(n);
    ghost var a := was[..data] + m.GlobalsImage(n);
    ghost var front, back := AroundSlot(m, was, first, elems, tables, t, j, v);
    RegroupStore(a, front, LE(elems[t][j], 4), back);
    RegroupStore(a, front, LE(v, 4), back);
    Patch(block, start + TABLE_HEADER + 4 * j, LE(v, 4), was, a + front, LE(elems[t][j], 4), back);
  }

  lemma RegroupStore(a: bytes, b: bytes, c: bytes, d: bytes)
    ensures a + (b + c + d) == a + b + c + d
  {
  }

  lemma OverlaidMore(elems: seq<seq<Word32>>, t: nat, base: nat, values: seq<Word32>, k: nat)
    requires t < |elems| && k < |values| && base + |values| <= |elems[t]|
    ensures var before := elems[t := Overlaid(elems[t], base, values[..k])];
            elems[t := Overlaid(elems[t], base, values[..k + 1])]
            == before[t := Overlaid(before[t], base + k, [values[k]])]
  {
    assert Overlaid(elems[t], base, values[..k + 1])
        == Overlaid(Overlaid(elems[t], base, values[..k]), base + k, [values[k]]);
  }

  method FillSegment(m: Module, s: Segment, block: array<byte>, start: nat, base: nat,
                     ghost was: bytes, ghost data: nat, ghost elems: seq<seq<Word32>>)
    requires m.Valid() && s.table < |m.AllTables()| && start == TableStart(m, data, s.table)
    requires base + |s.values| <= m.AllTables()[s.table].Slots()
    requires Holds(m, block[..], was, data, elems)
    modifies block
    ensures Holds(m, block[..], was, data, elems[s.table := Overlaid(elems[s.table], base, s.values)])
  {
    hide Holds, Overlaid;
    ghost var t := s.table;
    ShapeHeld(m, block[..], was, data, elems);
    assert elems[t := elems[t]] == elems;
    NothingOverlaid(elems[t], base, s.values);
    for j := 0 to |s.values|
      invariant Holds(m, block[..], was, data, elems[t := Overlaid(elems[t], base, s.values[..j])])
    {
      OverlaidMore(elems, t, base, s.values, j);
      StoreElement(m, block, start, base + j, s.values[j], was, data, elems[t := Overlaid(elems[t], base, s.values[..j])], t);
    }
    assert s.values[..|s.values|] == s.values;
  }

  lemma ShapeHeld(m: Module, block: bytes, was: bytes, data: nat, elems: seq<seq<Word32>>)
    requires Holds(m, block, was, data, elems)
    ensures m.Shaped(elems)
  {
  }

  lemma NothingOverlaid(ws: seq<Word32>, base: nat, values: seq<Word32>)
    requires base <= |ws|
    ensures Overlaid(ws, base, values[..0]) == ws
  {
  }

  /** Where a segment goes: the base is a constant, or read from the data of a global. */
  method BaseOffset(m: Module, s: Segment, importOffsets: array<nat>, offsets: array<nat>, block: array<byte>, data: nat,
                    ghost was: bytes, ghost elems: seq<seq<Word32>>) returns (ok: bool, base: nat)
    requires Assigned(m, importOffsets, offsets) && Holds(m, block[..], was, data, elems)
    ensures ok == m.Located(s)
    ensures ok ==> base == m.Base(s)
  {
    hide Holds, Module.GlobalsSize, Module.GlobalBytes, FromLE;
    match s.offset {
      case Fixed(value) =>
        return true, value;
      case OfGlobal(index) =>
        ok := CheckGlobalInitExpr(m, index);
        if !ok {
          return false, 0;
        }
        BlockHoldsGlobal(m, block[..], was, data, elems, index);
        ImportBytes(m, index);
        ghost var at := data + m.GlobalsSize(index);
        SliceOfSlice(block[..], at, m.GlobalSize(index), 0, 4);
        base := ReadWord(block, data + importOffsets[index]);
    }
  }

  lemma ImportBytes(m: Module, k: nat)
    requires k < |m.importGlobals|
    ensures m.GlobalSize(k) >= 4 && m.GlobalBytes(k)[0..4] == m.importGlobals[k].linked[..4]
  {
  }

  /** The 32-bit check of a segment accepts one that does not fit exactly if its end passes 2^32. */
  lemma CheckIsWrongIff(base: Word32, length: Word32, curSize: Word32)
    ensures base <= curSize && (base + length) % TWO_32 <= curSize < base + length
       <==> base <= curSize && base + length >= TWO_32
  {
    assert base + length >= TWO_32 ==> (base + length) % TWO_32 == base + length - TWO_32;
  }

  /** One active segment: it is refused if it does not fit. */
  method FillActive(m: Module, i: nat, importOffsets: array<nat>, offsets: array<nat>, block: array<byte>, data: nat,
                    start: nat, ghost was: bytes) returns (ok: bool)
    requires m.Valid() && i < |m.segments| && m.segments[i].active && m.Fillable(i)
    requires start == TableStart(m, data, m.segments[i].table)
    requires Assigned(m, importOffsets, offsets) && Holds(m, block[..], was, data, m.Filled(i))
    modifies block
    ensures ok == m.Fits(m.segments[i])
    ensures ok ==> m.Fillable(i + 1) && Holds(m, block[..], was, data, m.Filled(i + 1))
  {
    hide Holds, Module.GlobalsSize, Module.TableSpace, Module.Base;
    var s, base := m.segments[i], 0;
    ok, base := BaseOffset(m, s, importOffsets, offsets, block, data, was, m.Filled(i));
    if !ok {
      return;
    }
    BlockHoldsSizes(m, block[..], was, data, m.Filled(i), s.table);
    var curSize := ReadWord(block, start + 16);
    if base > curSize {
      return false;
    }
    if (base + |s.values|) % TWO_32 > curSize {
      return false;
    }
    FillSegment(m, s, block, start, base, was, data, m.Filled(i));
  }

  lemma NowHolds(m: Module, block: bytes, was: bytes, data: nat)
    requires m.Valid() && m.Initialisable(m.GlobalCount()) && data + m.DataSize() <= |was|
    requires Written(block, was, was[..data] + m.GlobalsImage(m.GlobalCount())
                                 + TablesImage(m, was, data + m.GlobalsSize(m.GlobalCount()), m.Filled(0), |m.AllTables()|))
    ensures Holds(m, block, was, data, m.Filled(0))
  {
  }

  lemma PassiveSegment(m: Module, i: nat)
    requires m.Valid() && i < |m.segments| && !m.segments[i].active && m.Fillable(i)
    ensures m.Fillable(i + 1) && m.Filled(i + 1) == m.Filled(i)
  {
  }

  method InstantiateTables(m: Module, importOffsets: array<nat>, offsets: array<nat>, block: array<byte>, data: nat,
                           ghost was: bytes) returns (ok: bool, starts: array<nat>, pastEnd: bool)
    requires m.Valid() && Assigned(m, importOffsets, offsets) && m.Initialisable(m.GlobalCount())
    requires data + m.DataSize() <= block.Length == |was|
    requires Written(block[..], was, was[..data] + m.GlobalsImage(m.GlobalCount()))
    modifies block
    ensures ok == m.Fillable(|m.segments|)
    ensures ok ==> Holds(m, block[..], was, data, m.Filled(|m.segments|))
    ensures fresh(starts) && starts.Length == |m.AllTables()|
    ensures forall t | 0 <= t < starts.Length :: starts[t] == TableStart(m, data, t)
    ensures pastEnd <==> m.importTables != []
  {
    hide Holds, Module.GlobalsSize, Module.TableSpace, Module.GlobalsImage, Module.Initialisable, Module.Base,
         Module.Filled, Module.Fits, TablesImage, Written;
    ghost var front := was[..data] + m.GlobalsImage(m.GlobalCount());
    starts, pastEnd := PutTables(m, block, data + m.GlobalsSize(m.GlobalCount()), was, front);
    NowHolds(m, block[..], was, data);
    for i := 0 to |m.segments|
      invariant forall t | 0 <= t < starts.Length :: starts[t] == TableStart(m, data, t)
      invariant m.Fillable(i) && Holds(m, block[..], was, data, m.Filled(i))
    {
      var s := m.segments[i];
      if !s.active {
        PassiveSegment(m, i);
        continue;
      }
      ok := FillActive(m, i, importOffsets, offsets, block, data, starts[s.table], was);
      if !ok {
        return;
      }
    }
    ok := true;
  }

  // The instance

  method TableSize(m: Module) returns (size: nat)
    ensures size == m.TableSpace(|m.AllTables()|)
  {
    size := 0;
    for i := 0 to |m.importTables|
      invariant size == m.TableSpace(i)
    {
      size := size + TABLE_HEADER;
      size := size + 4 * m.importTables[i].Slots();
    }
    for i := 0 to |m.tables|
      invariant size == m.TableSpace(|m.importTables| + i)
    {
      size := size + TABLE_HEADER;
      size := size + 4 * m.tables[i].Slots();
    }
  }

  /** The block of an instance: `structs` bytes in front of the data, `extra` bytes behind it. */
  method Instantiate(m: Module, structs: nat, extra: nat, importOffsets: array<nat>, offsets: array<nat>, dataSize: nat)
      returns (ok: bool, block: array<byte>, starts: array<nat>, pastEnd: bool)
    requires m.Valid() && Assigned(m, importOffsets, offsets) && dataSize == m.GlobalsSize(m.GlobalCount())
    ensures ok == (m.Initialisable(m.GlobalCount()) && m.Fillable(|m.segments|))
    ensures fresh(block) && block.Length == AlignUp(structs + m.DataSize(), 8) + extra
    ensures ok ==> Holds(m, block[..], seq(block.Length, _ => 0), structs, m.Filled(|m.segments|))
    ensures ok ==> starts.Length == |m.AllTables()| && (pastEnd <==> m.importTables != [])
    ensures ok ==> forall t | 0 <= t < starts.Length :: starts[t] == TableStart(m, structs, t)
  {
    hide Holds, Module.GlobalsSize, Module.TableSpace, Module.GlobalsImage, Module.Fillable, Module.Filled;
    var size := TableSize(m);
    var extraOffset := AlignUp(structs + dataSize + size, 8);
    AlignUpGrows(structs + dataSize + size, 8);
    block := new byte[extraOffset + extra](_ => 0);
    starts, pastEnd := new nat[0], false;
    ghost var was := block[..];
    assert was == seq(block.Length, _ => 0);
    ok := InstantiateGlobals(m, importOffsets, offsets, block, structs);
    if !ok {
      return;
    }
    ok, starts, pastEnd := InstantiateTables(m, importOffsets, offsets, block, structs, was);
  }

  /** When it succeeds: every global that is read is an imported constant, and every active segment ends
      inside the initial size of its table. */
  lemma InstantiatesIff(m: Module)
    requires m.Valid()
    ensures m.Initialisable(m.GlobalCount()) && m.Fillable(|m.segments|) <==>
            && (forall g <- m.globals | g.init.GetGlobal? ::
                  g.init.index < |m.importGlobals| && !m.importGlobals[g.init.index].mutable)
            && (forall s <- m.segments | s.active && s.offset.OfGlobal? ::
                  s.offset.index < |m.importGlobals| && !m.importGlobals[s.offset.index].mutable)
            && (forall s <- m.segments | s.active && (s.offset.OfGlobal? ==> s.offset.index < |m.importGlobals|) ::
                  var base := if s.offset.Fixed? then s.offset.base else FromLE(m.importGlobals[s.offset.index].linked[..4]);
                  base + |s.values| <= (m.importTables + m.tables)[s.table].initSize)
  {
    hide FromLE;
    forall g <- m.globals | g.init.GetGlobal?
      ensures m.Initialisable(m.GlobalCount()) ==> m.Readable(g.init.index)
    {
    }
    forall s <- m.segments | s.active ensures m.Fillable(|m.segments|) ==> m.Fits(s) {
    }
  }

  /** Table instances do not overlap, and the last one ends where the space set aside for them ends. */
  lemma TablesAreApart(m: Module, data: nat, t: nat, u: nat)
    requires t < u < |m.AllTables()|
    ensures var end := data + m.DataSize();
            && TableStart(m, data, t) + TABLE_HEADER + 4 * m.AllTables()[t].Slots() <= TableStart(m, data, u)
            && TableStart(m, data, u) + TABLE_HEADER + 4 * m.AllTables()[u].Slots() <= end
            && (u == |m.AllTables()| - 1 ==> TableStart(m, data, u) + TABLE_HEADER + 4 * m.AllTables()[u].Slots() == end)
  {
    SpaceGrows(m, t + 1, u);
    SpaceGrows(m, u + 1, |m.AllTables()|);
  }
}
