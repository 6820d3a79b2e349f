/// Where an instance puts its app heap in linear memory: the page arithmetic
/// of memory_instantiate, with its 32-bit variables.
module HeapInsertion {
  import opened Wrappers
  import opened Bytes
  import opened Arithmetic

  const KB: nat := 1024
  const DEFAULT_MAX_PAGES: nat := 65536
  const MAX_LINEAR_MEMORY_SIZE: nat := TWO_32
  const APP_HEAP_SIZE_MAX: nat := 0x2000_0000

  lemma ProductFits(a: Word32, b: Word32)
    ensures 0 <= a * b < TWO_64
  {
    MulMono(a, 0, b);
    MulMono(a, b, 0x1_0000_0000);
  }

  lemma QuotientFits(a: Word32, b: Word32)
    requires b > 0
    ensures 0 <= a / b <= a
  {
    MulMono(a / b, 1, b);
  }

  /** What the module says about its memory.  `auxHeapBase` is the value of its __heap_base global. */
  datatype Memory = Memory(pageSize: Word32, initPages: Word32, maxPages: Word32,
                           exportsMalloc: bool, auxHeapBase: Option<Word64>) {
    /** The limits of a memory type (section 3.2 of the WebAssembly Core Specification). */
    predicate ValidLimits() {
      initPages <= maxPages <= DEFAULT_MAX_PAGES
    }

    function Size(): Word64 { ProductFits(pageSize, initPages); pageSize * initPages }
  }

  /** The memory of the instance.  `heapBase` is the rewritten __heap_base. */
  datatype Layout = Layout(pageSize: Word32, initPages: Word32, maxPages: Word32,
                           heapOffset: Word64, heapSize: Word32, heapBase: Option<Word32>) {
    function Size(): Word64 { ProductFits(pageSize, initPages); pageSize * initPages }

    function HeapEnd(): nat { heapOffset + heapSize }
  }

  datatype Result = Ok(layout: Layout) | NoRoom | DivisionByZero

  /** Addition and multiplication of 32-bit variables. */
  function Add32(a: int, b: int): Word32 { (a + b) % TWO_32 }

  function Sub32(a: int, b: int): Word32 { (a - b) % TWO_32 }

  function Quotient(a: nat, b: nat): nat
    requires b > 0
  {
    a / b
  }

  lemma QuotientIs(a: nat, b: nat)
    requires b > 0
    ensures Quotient(a, b) * b <= a < (Quotient(a, b) + 1) * b
  {
    DivModIs(a, b);
  }

  function Div32(a: Word32, b: Word32): Word32
    requires b > 0
  {
    QuotientFits(a, b); Quotient(a, b)
  }

  function GetMaxMem(maxMemoryPages: Word32, initPages: Word32, maxPages: Word32): Word32 {
    if maxMemoryPages == 0 then maxPages
    else if maxMemoryPages < initPages then initPages
    else if maxMemoryPages > maxPages then maxPages
    else maxMemoryPages
  }

  /** What its caller makes of the heap size asked for: a multiple of eight, capped. */
  function AppHeapSize(requested: Word32): (size: Word32)
    ensures size % 8 == 0
    ensures requested <= APP_HEAP_SIZE_MAX ==> requested <= size < requested + 8 && size <= APP_HEAP_SIZE_MAX
    ensures APP_HEAP_SIZE_MAX < requested <= TWO_32 - 8 ==> size == APP_HEAP_SIZE_MAX
    ensures requested > TWO_32 - 8 ==> size == 0
  {
    var aligned := Add32(requested, 7) / 8 * 8;
    if aligned > APP_HEAP_SIZE_MAX then APP_HEAP_SIZE_MAX else aligned
  }

  /** What memory_instantiate does up to the allocation, in 32-bit arithmetic. */
  function Instantiate(m: Memory, heapSize: Word32, maxMemoryPages: Word32): Result {
    var maxPages := GetMaxMem(maxMemoryPages, m.initPages, m.maxPages);
    var heapSize := if m.exportsMalloc then 0 else heapSize;
    if heapSize > 0 && m.Size() == MAX_LINEAR_MEMORY_SIZE then NoRoom
    else if m.initPages == maxPages && m.initPages == 1 then
      var pageSize := Add32(m.pageSize, heapSize);
      if pageSize < heapSize then NoRoom
      else Ok(Layout(pageSize, 1, 1, m.pageSize, heapSize, None))
    else if heapSize == 0 then
      Ok(Layout(m.pageSize, m.initPages, maxPages, m.Size(), 0, None))
    else if m.initPages == maxPages && m.initPages == 0 then
      WithPages(m, maxPages, heapSize, 0, heapSize, 1, None)
    else if m.auxHeapBase.Some? && m.auxHeapBase.value < m.Size() then
      BeforeBase(m, maxPages, heapSize, m.auxHeapBase.value)
    else if m.pageSize == 0 then DivisionByZero
    else Behind(m, maxPages, heapSize)
  }

  /** New pages behind the memory, all but a kilobyte of them for the heap. */
  function Behind(m: Memory, maxPages: Word32, heapSize: Word32): Result
    requires 0 < m.pageSize
  {
    var incPages := Div32(Sub32(Add32(heapSize, m.pageSize), 1), m.pageSize);
    var room := m.pageSize * incPages % TWO_32;
    WithPages(m, maxPages, m.pageSize, m.Size(), if room > 0 then Sub32(room, KB) else 0, incPages, None)
  }

  /** The number of bytes from a position to the end of its page, as the source computes it. */
  function ToPageEnd(pos: nat, pageSize: Word32): Word32
    requires pageSize > 0
  {
    if pos % pageSize == 0 then 0 else pageSize - pos % pageSize
  }

  /** Pages in front of __heap_base, which moves up. */
  function BeforeBase(m: Memory, maxPages: Word32, heapSize: Word32, base: Word64): Result
    requires 0 < m.pageSize && base < m.Size()
  {
    var incPages := Div32(Sub32(Add32(Sub32(heapSize, ToPageEnd(base, m.pageSize)), m.pageSize), 1), m.pageSize);
    var moved := base + heapSize;
    if ToPageEnd(moved, m.pageSize) < KB
    then WithPages(m, maxPages, m.pageSize, base, heapSize, Add32(incPages, 1), Some((moved + KB) % TWO_32))
    else WithPages(m, maxPages, m.pageSize, base, heapSize, incPages, Some(moved % TWO_32))
  }

  function WithPages(m: Memory, maxPages: Word32, pageSize: Word32, heapOffset: Word64, heapSize: Word32,
                     incPages: Word32, heapBase: Option<Word32>): Result {
    var initPages := Add32(m.initPages, incPages);
    var maxPages := Add32(maxPages, incPages);
    if initPages > DEFAULT_MAX_PAGES then NoRoom
    else
      Ok(Layout(pageSize, initPages, if maxPages > DEFAULT_MAX_PAGES then DEFAULT_MAX_PAGES else maxPages,
                heapOffset, heapSize, heapBase))
  }

  method BytesToPageEnd(pos: nat, pageSize: Word32) returns (n: Word32)
    requires pageSize > 0
    ensures n == ToPageEnd(pos, pageSize)
  {
    var bytesOfLastPage := pos % pageSize;
    if bytesOfLastPage == 0 {
      bytesOfLastPage := pageSize;
    }
    n := pageSize - bytesOfLastPage;
  }

  /** memory_instantiate itself, variable by variable. */
  method MemoryInstantiate(m: Memory, appHeapSize: Word32, maxMemoryPages: Word32) returns (r: Result)
    ensures r == Instantiate(m, appHeapSize, maxMemoryPages)
  {
    hide Quotient, ToPageEnd, GetMaxMem;
    var pageSize, initPages, heapSize, heapOffset := m.pageSize, m.initPages, appHeapSize, m.Size();
    var maxPages := GetMaxMem(maxMemoryPages, m.initPages, m.maxPages);
    var newBase: Option<Word32> := None;
    if heapSize > 0 && m.exportsMalloc {
      heapSize := 0;
    }
    if heapSize > 0 && heapOffset == MAX_LINEAR_MEMORY_SIZE {
      return NoRoom;
    }
    if initPages == maxPages && initPages == 1 {
      heapOffset := pageSize;
      pageSize := Add32(pageSize, heapSize);
      if pageSize < heapSize {
        return NoRoom;
      }
    } else if heapSize > 0 {
      var incPages: Word32;
      if initPages == maxPages && initPages == 0 {
        pageSize, heapOffset, incPages := heapSize, 0, 1;
      } else if m.auxHeapBase.Some? && m.auxHeapBase.value < m.Size() {
        var base := m.auxHeapBase.value;
        var toPageEnd := BytesToPageEnd(base, pageSize);
        incPages := Div32(Sub32(Add32(Sub32(heapSize, toPageEnd), pageSize), 1), pageSize);
        heapOffset := base;
        base := base + heapSize;
        toPageEnd := BytesToPageEnd(base, pageSize);
        if toPageEnd < KB {
          base := base + KB;
          incPages := Add32(incPages, 1);
        }
        newBase := Some(base % TWO_32);
      } else if pageSize == 0 {
        return DivisionByZero;
      } else {
        incPages := Div32(Sub32(Add32(heapSize, pageSize), 1), pageSize);
        heapOffset := m.Size();
        heapSize := pageSize * incPages % TWO_32;
        if heapSize > 0 {
          heapSize := Sub32(heapSize, KB);
        }
      }
      initPages, maxPages := Add32(initPages, incPages), Add32(maxPages, incPages);
      if initPages > DEFAULT_MAX_PAGES {
        return NoRoom;
      }
      if maxPages > DEFAULT_MAX_PAGES {
        maxPages := DEFAULT_MAX_PAGES;
      }
    }
    r := Ok(Layout(pageSize, initPages, maxPages, heapOffset, heapSize, newBase));
  }

  /** The end of the page a position is on; a position at the start of a page is at the end of the one before. */
  function PageEnd(pos: nat, pageSize: nat): nat
    requires pageSize > 0
  {
    AlignUp(pos, pageSize)
  }

  lemma DivModIs(n: nat, d: nat)
    requires d > 0
    ensures n == n / d * d + n % d
  {
  }

  lemma ToPageEndBound(pos: nat, pageSize: Word32)
    requires pageSize > 0
    ensures ToPageEnd(pos, pageSize) < pageSize
  {
  }

  lemma PageEndIs(pos: nat, pageSize: Word32)
    requires pageSize > 0
    ensures PageEnd(pos, pageSize) == pos + ToPageEnd(pos, pageSize)
  {
    hide AlignUp;
    AlignUpIs(pos, pageSize);
  }

  /** The pages inserted in front of the heap base move its page end up by exactly as much as the heap
      moves the base. */
  lemma InsertedPages(base: nat, heapSize: nat, pageSize: Word32)
    requires pageSize > 0
    ensures var n := heapSize - ToPageEnd(base, pageSize) + pageSize - 1;
            && n >= 0
            && Quotient(n, pageSize) * pageSize == PageEnd(base + heapSize, pageSize) - PageEnd(base, pageSize)
  {
    hide ToPageEnd, PageEnd;
    ToPageEndBound(base, pageSize);
    PageEndIs(base, pageSize);
    var pages := PageEndIsMultiple(base, pageSize);
    var n := heapSize - ToPageEnd(base, pageSize) + pageSize - 1;
    PageEndBehind(pages, n, base + heapSize, pageSize);
    AddProducts(pages, Quotient(n, pageSize), pageSize);
  }

  lemma PageEndIsMultiple(pos: nat, pageSize: Word32) returns (pages: nat)
    requires pageSize > 0
    ensures PageEnd(pos, pageSize) == pages * pageSize
  {
    pages := (pos + pageSize - 1) / pageSize;
  }

  lemma PageEndBehind(pages: nat, n: nat, pos: nat, pageSize: Word32)
    requires pageSize > 0 && pos + pageSize - 1 == pages * pageSize + n
    ensures PageEnd(pos, pageSize) == (pages + Quotient(n, pageSize)) * pageSize
  {
    DivAddMultiple(pages, pageSize, n);
  }

  /** Where the program's own bytes end: at __heap_base if that lies in the memory, else with the memory. */
  function ProgramEnd(m: Memory): Word64 {
    if m.auxHeapBase.Some? && m.auxHeapBase.value < m.Size() then m.auxHeapBase.value else m.Size()
  }

  /** How far the program's heap base moves: past the app heap, and a kilobyte further, on to a new
      page, if less than that is left of the page. */
  function Moved(pos: nat, pageSize: Word32): nat
    requires pageSize > 0
  {
    if PageEnd(pos, pageSize) - pos < KB then pos + KB else pos
  }

  /** The heap lies behind the program and inside the memory, in front of the heap base the program is
      told; and the limits stay in order. */
  predicate Safe(m: Memory, l: Layout) {
    && ProgramEnd(m) <= l.heapOffset && l.HeapEnd() <= l.Size()
    && (l.heapBase.Some? ==> l.HeapEnd() <= l.heapBase.value <= l.Size())
    && l.initPages <= l.maxPages <= DEFAULT_MAX_PAGES
  }

  lemma MulIsBelow(q: nat, pageSize: Word32, pages: nat)
    requires pageSize > 0 && q < pages
    ensures (q + 1) * pageSize <= pageSize * pages
  {
    MulMono(pageSize, q + 1, pages);
  }

  lemma PageEndBelow(pos: nat, pageSize: Word32, pages: nat)
    requires pageSize > 0 && pos < pageSize * pages
    ensures PageEnd(pos, pageSize) <= pageSize * pages
  {
    PageEndIs(pos, pageSize);
    QuotientIs(pos, pageSize);
    EndOfPage(pos, pageSize);
    if Quotient(pos, pageSize) >= pages {
      MulMono(pageSize, pages, Quotient(pos, pageSize));
    }
    MulIsBelow(Quotient(pos, pageSize), pageSize, pages);
  }

  lemma EndOfPage(pos: nat, pageSize: Word32)
    requires pageSize > 0
    ensures pos + ToPageEnd(pos, pageSize) <= (Quotient(pos, pageSize) + 1) * pageSize
  {
    DivModIs(pos, pageSize);
    assert (pos / pageSize + 1) * pageSize == pos / pageSize * pageSize + pageSize;
  }

  /** The number of pages for n bytes, at most a page more than the heap. */
  lemma FewPages(n: nat, heapSize: nat, pageSize: Word32)
    requires pageSize > 0 && n < heapSize + pageSize
    ensures Quotient(n, pageSize) <= heapSize
  {
    hide Quotient;
    QuotientIs(n, pageSize);
    var q := Quotient(n, pageSize);
    MulMono(heapSize, 1, pageSize);
    OneMore(heapSize, pageSize);
    if q > heapSize {
      MulMono(pageSize, heapSize + 1, q);
    }
  }

  lemma NoWrap(heapSize: Word32, back: Word32, pageSize: Word32)
    requires back < pageSize && heapSize - back + pageSize <= TWO_32
    ensures Sub32(Add32(Sub32(heapSize, back), pageSize), 1) == heapSize - back + pageSize - 1
  {
  }

  lemma Wrapped(heapSize: Word32, back: Word32, pageSize: Word32)
    requires back < pageSize && heapSize - back + pageSize > TWO_32
    ensures Sub32(Add32(Sub32(heapSize, back), pageSize), 1) == heapSize - back + pageSize - 1 - TWO_32 < pageSize
  {
  }

  lemma WithPagesLimits(m: Memory, maxPages: Word32, pageSize: Word32, heapOffset: Word64, heapSize: Word32,
                        incPages: Word32, heapBase: Option<Word32>)
    requires m.initPages <= maxPages <= DEFAULT_MAX_PAGES && incPages <= APP_HEAP_SIZE_MAX + 1
    ensures var r := WithPages(m, maxPages, pageSize, heapOffset, heapSize, incPages, heapBase);
            r.Ok? ==>
              && r.layout.pageSize == pageSize && r.layout.initPages == m.initPages + incPages
              && r.layout.initPages <= r.layout.maxPages <= DEFAULT_MAX_PAGES
              && r.layout.heapOffset == heapOffset && r.layout.heapSize == heapSize && r.layout.heapBase == heapBase
  {
  }

  /** The bytes the heap needs beyond the page of a position, and a page less one, do not fit 32 bits. */
  predicate Wraps(pos: nat, heapSize: Word32, pageSize: Word32)
    requires pageSize > 0
  {
    heapSize - ToPageEnd(pos, pageSize) + pageSize > TWO_32
  }

  /** The pages that are inserted in front of __heap_base, without wrapping. */
  lemma BeforeBaseIs(m: Memory, maxPages: Word32, heapSize: Word32, base: Word64) returns (grown: nat)
    requires m.pageSize > 0 && heapSize <= APP_HEAP_SIZE_MAX && !Wraps(base, heapSize, m.pageSize) && base < m.Size()
    ensures grown <= APP_HEAP_SIZE_MAX + 1
    ensures BeforeBase(m, maxPages, heapSize, base)
         == WithPages(m, maxPages, m.pageSize, base, heapSize, grown, Some(Moved(base + heapSize, m.pageSize) % TWO_32))
    ensures grown * m.pageSize == PageEnd(base + heapSize, m.pageSize) - PageEnd(base, m.pageSize)
                            + (if Moved(base + heapSize, m.pageSize) > base + heapSize then m.pageSize else 0)
  {
    hide PageEnd, ToPageEnd, Div32, Sub32, Add32, WithPages, Memory.Size, Wraps;
    var inc := InsertedCount(base, heapSize, m.pageSize);
    var moved := base + heapSize;
    PageEndIs(moved, m.pageSize);
    OneMore(inc, m.pageSize);
    AddOne(inc);
    grown := if ToPageEnd(moved, m.pageSize) < KB then inc + 1 else inc;
  }

  /** What the insertion in front of __heap_base does to the layout, without wrapping. */
  lemma BeforeBaseLayout(m: Memory, maxPages: Word32, heapSize: Word32, base: Word64) returns (grown: nat)
    requires m.pageSize > 0 && m.initPages <= maxPages <= DEFAULT_MAX_PAGES
    requires heapSize <= APP_HEAP_SIZE_MAX && !Wraps(base, heapSize, m.pageSize) && base < m.Size()
    requires BeforeBase(m, maxPages, heapSize, base).Ok?
    ensures var l, p := BeforeBase(m, maxPages, heapSize, base).layout, m.pageSize;
            && l.pageSize == p && l.initPages == m.initPages + grown && l.initPages <= l.maxPages <= DEFAULT_MAX_PAGES
            && l.heapOffset == base && l.heapSize == heapSize
            && l.heapBase == Some(Moved(base + heapSize, p) % TWO_32)
    ensures grown * m.pageSize == PageEnd(base + heapSize, m.pageSize) - PageEnd(base, m.pageSize)
                            + (if Moved(base + heapSize, m.pageSize) > base + heapSize then m.pageSize else 0)
  {
    hide PageEnd, BeforeBase, WithPages, Memory.Size, Wraps;
    grown := BeforeBaseIs(m, maxPages, heapSize, base);
    WithPagesLimits(m, maxPages, m.pageSize, base, heapSize, grown, Some(Moved(base + heapSize, m.pageSize) % TWO_32));
  }

  lemma AddOne(n: nat)
    requires n <= APP_HEAP_SIZE_MAX
    ensures Add32(n, 1) == n + 1
  {
  }

  lemma OneMore(n: nat, d: nat)
    ensures (n + 1) * d == n * d + d
  {
  }

  /** Inserting the heap in front of __heap_base.  The memory grows by the pages the move of the base
      needs; with less than a kilobyte left behind the heap, by one more. */
  lemma BeforeBaseGrows(m: Memory, maxPages: Word32, heapSize: Word32, base: Word64)
    requires m.pageSize > 0 && m.initPages <= maxPages <= DEFAULT_MAX_PAGES
    requires heapSize <= APP_HEAP_SIZE_MAX && !Wraps(base, heapSize, m.pageSize) && base < m.Size()
    requires BeforeBase(m, maxPages, heapSize, base).Ok?
    ensures var l, p, moved := BeforeBase(m, maxPages, heapSize, base).layout, m.pageSize, base + heapSize;
            && l.pageSize == p && l.heapOffset == base && l.heapSize == heapSize
            && l.heapBase == Some(Moved(moved, p) % TWO_32)
            && l.Size() == m.Size() + PageEnd(moved, p) - PageEnd(base, p) + (if Moved(moved, p) > moved then p else 0)
            && PageEnd(base, p) <= m.Size() && PageEnd(moved, p) == moved + ToPageEnd(moved, p)
            && l.initPages <= l.maxPages <= DEFAULT_MAX_PAGES
  {
    hide PageEnd, ToPageEnd, BeforeBase;
    var p := m.pageSize;
    var grown := BeforeBaseLayout(m, maxPages, heapSize, base);
    PageEndIs(base + heapSize, p);
    PageEndBelow(base, p, m.initPages);
    GrownSize(p, m.initPages, grown);
    SizeIs(m);
  }

  /** A kilobyte is left behind the heap, on its page or with the pages behind it. */
  predicate KilobyteLeft(m: Memory, heapSize: Word32, base: Word64)
    requires m.pageSize > 0
  {
    var left := ToPageEnd(base + heapSize, m.pageSize);
    left >= KB || left + m.pageSize + (m.Size() - PageEnd(base, m.pageSize)) >= KB
  }

  /** Without wrapping, in a memory of at most four gigabytes, that decides. */
  lemma BeforeBaseIsSafeIff(m: Memory, maxPages: Word32, heapSize: Word32, base: Word64)
    requires m.pageSize > 0 && m.initPages <= maxPages <= DEFAULT_MAX_PAGES && m.auxHeapBase == Some(base)
    requires heapSize <= APP_HEAP_SIZE_MAX && !Wraps(base, heapSize, m.pageSize) && base < m.Size()
    requires var r := BeforeBase(m, maxPages, heapSize, base); r.Ok? && r.layout.Size() <= MAX_LINEAR_MEMORY_SIZE
    ensures Safe(m, BeforeBase(m, maxPages, heapSize, base).layout) <==> KilobyteLeft(m, heapSize, base)
  {
    hide PageEnd, ToPageEnd, BeforeBase, Memory.Size, Layout.Size;
    BeforeBaseGrows(m, maxPages, heapSize, base);
    var l := BeforeBase(m, maxPages, heapSize, base).layout;
    SmallPagesSmallMemory(l);
    MovedFitsIff(base + heapSize, m.pageSize, m.Size() - PageEnd(base, m.pageSize), l.Size());
  }

  /** The new base fits the grown memory, and its 32 bits, exactly if the kilobyte is there. */
  lemma MovedFitsIff(moved: nat, pageSize: Word32, behind: nat, size: nat)
    requires pageSize > 0 && size <= TWO_32 && PageEnd(moved, pageSize) == moved + ToPageEnd(moved, pageSize)
    requires size == behind + PageEnd(moved, pageSize) + if Moved(moved, pageSize) > moved then pageSize else 0
    requires pageSize <= KB ==> size < TWO_32
    ensures moved <= size
    ensures moved <= Moved(moved, pageSize) % TWO_32 <= size
       <==> ToPageEnd(moved, pageSize) >= KB || ToPageEnd(moved, pageSize) + pageSize + behind >= KB
  {
    hide PageEnd, ToPageEnd;
  }

  /** When the page count wraps to zero the memory is left as it is. */
  lemma BeforeBaseWraps(m: Memory, maxPages: Word32, heapSize: Word32, base: Word64)
    requires m.pageSize > 0 && m.initPages <= maxPages <= DEFAULT_MAX_PAGES && m.auxHeapBase == Some(base)
    requires heapSize <= APP_HEAP_SIZE_MAX && Wraps(base, heapSize, m.pageSize) && base < m.Size()
    requires var r := BeforeBase(m, maxPages, heapSize, base); r.Ok? && r.layout.Size() <= MAX_LINEAR_MEMORY_SIZE
    ensures Safe(m, BeforeBase(m, maxPages, heapSize, base).layout) <==> base + heapSize <= m.Size()
  {
    hide PageEnd, ToPageEnd, Sub32, Memory.Size, Layout.Size, WithPages;
    var p, moved := m.pageSize, base + heapSize;
    ToPageEndBound(base, p);
    Wrapped(heapSize, ToPageEnd(base, p), p);
    NoQuotient(heapSize - ToPageEnd(base, p) + p - 1 - TWO_32, p);
    var l := BeforeBase(m, maxPages, heapSize, base).layout;
    SizeIs(m);
    if ToPageEnd(moved, p) < KB {
      WithPagesLimits(m, maxPages, p, base, heapSize, 1, Some((moved + KB) % TWO_32));
      LayoutSizeIs(l);
      MulMono(p, 2, l.initPages);
      assert false;
    } else {
      WithPagesLimits(m, maxPages, p, base, heapSize, 0, Some(moved % TWO_32));
      LayoutSizeIs(l);
      if m.initPages >= 2 {
        MulMono(p, 2, m.initPages);
      }
    }
  }

  lemma NoQuotient(n: nat, d: Word32)
    requires n < d
    ensures Quotient(n, d) == 0
  {
  }

  lemma LayoutSizeIs(l: Layout)
    ensures l.Size() == l.pageSize * l.initPages
  {
  }

  lemma SmallPagesSmallMemory(l: Layout)
    requires l.initPages <= DEFAULT_MAX_PAGES
    ensures l.pageSize <= KB ==> l.Size() < TWO_32
  {
    LayoutSizeIs(l);
    MulMono(l.pageSize, l.initPages, DEFAULT_MAX_PAGES);
  }

  /** The number of pages the source inserts, without wrapping. */
  lemma InsertedCount(base: nat, heapSize: Word32, pageSize: Word32) returns (inc: nat)
    requires pageSize > 0 && !Wraps(base, heapSize, pageSize)
    ensures inc == Div32(Sub32(Add32(Sub32(heapSize, ToPageEnd(base, pageSize)), pageSize), 1), pageSize) <= heapSize
    ensures inc * pageSize == PageEnd(base + heapSize, pageSize) - PageEnd(base, pageSize)
  {
    hide Quotient, PageEnd, ToPageEnd;
    PageEndIs(base, pageSize);
    ToPageEndBound(base, pageSize);
    InsertedPages(base, heapSize, pageSize);
    var n := heapSize - ToPageEnd(base, pageSize) + pageSize - 1;
    NoWrap(heapSize, ToPageEnd(base, pageSize), pageSize);
    FewPages(n, heapSize, pageSize);
    inc := Quotient(n, pageSize);
  }

  lemma GrownSize(pageSize: Word32, pages: nat, more: nat)
    ensures pageSize * (pages + more) == pageSize * pages + more * pageSize
  {
  }

  /** Inserting the heap behind the memory: whole pages, less a kilobyte that they may not have. */
  lemma BehindIsSafeIff(m: Memory, maxPages: Word32, heapSize: Word32)
    requires m.pageSize > 0 && m.initPages <= maxPages <= DEFAULT_MAX_PAGES
    requires 0 < heapSize <= APP_HEAP_SIZE_MAX && !Wraps(0, heapSize, m.pageSize) && Behind(m, maxPages, heapSize).Ok?
    requires ProgramEnd(m) <= m.Size()
    ensures var l, room := Behind(m, maxPages, heapSize).layout, PageEnd(heapSize, m.pageSize);
            && l.Size() == m.Size() + room && l.heapOffset == m.Size() && l.heapBase == None
            && (Safe(m, l) <==> room >= KB)
            && (room >= KB ==> l.heapSize == room - KB)
  {
    hide PageEnd, ToPageEnd, Div32, Sub32, Add32, WithPages, Memory.Size, Layout.Size, ProgramEnd, Wraps;
    var p := m.pageSize;
    var inc := NewPages(heapSize, p);
    var room := p * inc;
    GrownSize(p, m.initPages, inc);
    MulMono(p, 1, inc);
    RoomForHeap(room);
    WithPagesLimits(m, maxPages, p, m.Size(), Sub32(room, KB), inc, None);
    SizeIs(m);
    LayoutSizeIs(Behind(m, maxPages, heapSize).layout);
  }

  /** When the page count wraps to zero there is no heap, and the memory is left as it is. */
  lemma BehindWraps(m: Memory, maxPages: Word32, heapSize: Word32)
    requires m.pageSize > 0 && m.initPages <= maxPages <= DEFAULT_MAX_PAGES
    requires heapSize <= APP_HEAP_SIZE_MAX && Wraps(0, heapSize, m.pageSize) && Behind(m, maxPages, heapSize).Ok?
    requires ProgramEnd(m) <= m.Size()
    ensures var l := Behind(m, maxPages, heapSize).layout; Safe(m, l) && l.heapSize == 0 && l.Size() == m.Size()
  {
    hide PageEnd, ToPageEnd, Sub32, WithPages, Memory.Size, Layout.Size, ProgramEnd;
    var p := m.pageSize;
    StartOfMemory(p);
    SubNothing(heapSize);
    Wrapped(heapSize, 0, p);
    NoQuotient(heapSize + p - 1 - TWO_32, p);
    WithPagesLimits(m, maxPages, p, m.Size(), 0, 0, None);
    SizeIs(m);
    LayoutSizeIs(Behind(m, maxPages, heapSize).layout);
  }

  lemma SizeIs(m: Memory)
    ensures m.Size() == m.pageSize * m.initPages
  {
  }

  lemma RoomForHeap(room: Word32)
    ensures if room >= KB then Sub32(room, KB) == room - KB else Sub32(room, KB) > room
  {
  }

  lemma NewPages(heapSize: Word32, pageSize: Word32) returns (inc: nat)
    requires pageSize > 0 && !Wraps(0, heapSize, pageSize) && 0 < heapSize
    ensures 1 <= inc == Div32(Sub32(Add32(heapSize, pageSize), 1), pageSize) <= heapSize
    ensures pageSize * inc == PageEnd(heapSize, pageSize) < TWO_32
  {
    hide PageEnd, ToPageEnd, Div32, Sub32, Add32;
    StartOfMemory(pageSize);
    inc := InsertedCount(0, heapSize, pageSize);
    assert Sub32(heapSize, 0) == heapSize by { SubNothing(heapSize); }
    PageEndIs(heapSize, pageSize);
    ToPageEndBound(heapSize, pageSize);
  }

  lemma SubNothing(n: Word32)
    ensures Sub32(n, 0) == n
  {
  }

  lemma StartOfMemory(pageSize: Word32)
    requires pageSize > 0
    ensures PageEnd(0, pageSize) == 0 && ToPageEnd(0, pageSize) == 0
  {
    assert (pageSize - 1) / pageSize == 0;
  }

  /** A memory that is always empty becomes one page, all of it heap. */
  lemma WholeMemory(m: Memory, heapSize: Word32)
    requires m.initPages == 0
    ensures var r := WithPages(m, 0, heapSize, 0, heapSize, 1, None);
            r.Ok? && Safe(m, r.layout) && r.layout.Size() == heapSize
  {
  }

  /** The memory has one page and always will, or none: it becomes one page, with the heap behind the
      program's bytes. */
  predicate OnePage(m: Memory, maxMemoryPages: Word32) {
    m.initPages == GetMaxMem(maxMemoryPages, m.initPages, m.maxPages) <= 1
  }

  /** Whether the heap has the room it is given, told from the memory and the size of the heap. */
  predicate HasRoom(m: Memory, heapSize: Word32)
    requires m.pageSize > 0
  {
    if m.auxHeapBase.Some? && m.auxHeapBase.value < m.Size() then
      var base := m.auxHeapBase.value;
      if Wraps(base, heapSize, m.pageSize) then base + heapSize <= m.Size() else KilobyteLeft(m, heapSize, base)
    else Wraps(0, heapSize, m.pageSize) || PageEnd(heapSize, m.pageSize) >= KB
  }

  /** The limit the memory gets: the nearest to the one asked for that the module allows, and its
      maximum if none is asked for. */
  lemma MaxIsNearest(maxMemoryPages: Word32, initPages: Word32, maxPages: Word32, n: Word32)
    requires initPages <= n <= maxPages
    ensures var r := GetMaxMem(maxMemoryPages, initPages, maxPages);
            && initPages <= r <= maxPages
            && (if maxMemoryPages == 0 then r == maxPages
                else Distance(r, maxMemoryPages) <= Distance(n, maxMemoryPages))
  {
  }

  function Distance(a: int, b: int): nat {
    if a <= b then b - a else a - b
  }

  /** Without a heap, because none is asked for or the program has its own, the memory stays as it is. */
  lemma NoHeapLeavesMemory(m: Memory, heapSize: Word32, maxMemoryPages: Word32)
    requires m.exportsMalloc || heapSize == 0
    ensures Instantiate(m, heapSize, maxMemoryPages)
         == Ok(Layout(m.pageSize, m.initPages, GetMaxMem(maxMemoryPages, m.initPages, m.maxPages), m.Size(), 0, None))
  {
    hide GetMaxMem;
  }

  /** A single page grows by the heap, unless that passes 32 bits. */
  lemma SinglePageGrows(m: Memory, heapSize: Word32, maxMemoryPages: Word32)
    requires !m.exportsMalloc && m.initPages == GetMaxMem(maxMemoryPages, m.initPages, m.maxPages) == 1
    ensures Instantiate(m, heapSize, maxMemoryPages)
         == if m.pageSize + heapSize < TWO_32 then Ok(Layout(m.pageSize + heapSize, 1, 1, m.pageSize, heapSize, None))
            else NoRoom
  {
    hide GetMaxMem;
  }

  /** How large the memory gets with the heap in it. */
  function SizeWithHeap(m: Memory, heapSize: Word32): nat
    requires m.pageSize > 0
  {
    var p := m.pageSize;
    if m.auxHeapBase.Some? && m.auxHeapBase.value < m.Size() then
      var base := m.auxHeapBase.value;
      PageEndMonotone(base, base + heapSize, p);
      m.Size() + (PageEnd(base + heapSize, p) - PageEnd(base, p))
      + (if PageEnd(base + heapSize, p) - (base + heapSize) < KB then p else 0)
    else m.Size() + PageEnd(heapSize, p)
  }

  lemma PageEndMonotone(a: nat, b: nat, pageSize: Word32)
    requires pageSize > 0 && a <= b
    ensures PageEnd(a, pageSize) <= PageEnd(b, pageSize)
  {
    hide Quotient, PageEnd;
    InsertedPages(a, b - a, pageSize);
    var n := b - a - ToPageEnd(a, pageSize) + pageSize - 1;
    MulMono(pageSize, 0, Quotient(n, pageSize));
  }

  lemma WithPagesFits(m: Memory, maxPages: Word32, pageSize: Word32, heapOffset: Word64, heapSize: Word32,
                      incPages: Word32, heapBase: Option<Word32>)
    requires m.initPages <= maxPages <= DEFAULT_MAX_PAGES && incPages <= APP_HEAP_SIZE_MAX + 1
    ensures var r := WithPages(m, maxPages, pageSize, heapOffset, heapSize, incPages, heapBase);
            && r != DivisionByZero && (r.Ok? <==> m.initPages + incPages <= DEFAULT_MAX_PAGES)
            && (r.Ok? ==> && r.layout.pageSize == pageSize && r.layout.initPages == m.initPages + incPages
                          && r.layout.maxPages == if maxPages + incPages > DEFAULT_MAX_PAGES then DEFAULT_MAX_PAGES
                                                  else maxPages + incPages)
  {
  }

  /** Multiplied by the page size. */
  lemma FitsInBytes(pages: nat, pageSize: Word32)
    requires pageSize > 0
    ensures pages <= DEFAULT_MAX_PAGES <==> pageSize * pages <= DEFAULT_MAX_PAGES * pageSize
  {
    if pages <= DEFAULT_MAX_PAGES {
      MulMono(pageSize, pages, DEFAULT_MAX_PAGES);
    } else {
      MulMono(pageSize, DEFAULT_MAX_PAGES + 1, pages);
    }
  }

  /** Insertion fails exactly if the memory already has four gigabytes or would have too many pages; if
      not, the maximum moves by as many pages as the memory grows, as far as it may. */
  lemma InsertionFitsIff(m: Memory, requested: Word32, maxMemoryPages: Word32)
    requires m.ValidLimits() && !m.exportsMalloc && AppHeapSize(requested) > 0
    requires m.pageSize > 0 && !OnePage(m, maxMemoryPages)
    requires !Wraps(if m.auxHeapBase.Some? && m.auxHeapBase.value < m.Size() then m.auxHeapBase.value else 0,
                    AppHeapSize(requested), m.pageSize)
    ensures var r, size := Instantiate(m, AppHeapSize(requested), maxMemoryPages), SizeWithHeap(m, AppHeapSize(requested));
            && (r == NoRoom <==> m.Size() == TWO_32 || size > DEFAULT_MAX_PAGES * m.pageSize)
            && (r != NoRoom ==> && r.Ok? && r.layout.Size() == size
                                && r.layout.maxPages
                                   == (var grown := r.layout.initPages - m.initPages
                                                    + GetMaxMem(maxMemoryPages, m.initPages, m.maxPages);
                                       if grown > DEFAULT_MAX_PAGES then DEFAULT_MAX_PAGES else grown))
  {
    hide PageEnd, BeforeBase, Behind, WithPages, Wraps, AppHeapSize, Layout.Size, Memory.Size, ToPageEnd;
    HeapSizeIsCapped(requested);
    var maxPages, heapSize, p := GetMaxMem(maxMemoryPages, m.initPages, m.maxPages), AppHeapSize(requested), m.pageSize;
    SizeIs(m);
    var r := Instantiate(m, heapSize, maxMemoryPages);
    var grown: nat;
    if m.auxHeapBase.Some? && m.auxHeapBase.value < m.Size() {
      var base := m.auxHeapBase.value;
      grown := BeforeBaseIs(m, maxPages, heapSize, base);
      WithPagesFits(m, maxPages, p, base, heapSize, grown, Some(Moved(base + heapSize, p) % TWO_32));
    } else {
      grown := BehindIs(m, maxPages, heapSize);
    }
    GrownSize(p, m.initPages, grown);
    FitsInBytes(m.initPages + grown, p);
    if r.Ok? {
      LayoutSizeIs(r.layout);
    }
  }

  lemma BehindIs(m: Memory, maxPages: Word32, heapSize: Word32) returns (grown: nat)
    requires m.pageSize > 0 && m.initPages <= maxPages <= DEFAULT_MAX_PAGES
    requires 0 < heapSize <= APP_HEAP_SIZE_MAX && !Wraps(0, heapSize, m.pageSize)
    ensures grown * m.pageSize == PageEnd(heapSize, m.pageSize)
    ensures var r := Behind(m, maxPages, heapSize);
            && r != DivisionByZero && (r.Ok? <==> m.initPages + grown <= DEFAULT_MAX_PAGES)
            && (r.Ok? ==> && r.layout.pageSize == m.pageSize && r.layout.initPages == m.initPages + grown
                          && r.layout.maxPages == if maxPages + grown > DEFAULT_MAX_PAGES then DEFAULT_MAX_PAGES
                                                  else maxPages + grown)
  {
    hide PageEnd, ToPageEnd, Div32, Sub32, Add32, WithPages, Memory.Size, Wraps;
    grown := NewPages(heapSize, m.pageSize);
    var room := m.pageSize * grown % TWO_32;
    WithPagesFits(m, maxPages, m.pageSize, m.Size(), if room > 0 then Sub32(room, KB) else 0, grown, None);
  }

  /** For every size asked for and every memory, a heap that is inserted is safe if and only if the
      memory is one page or there is room, in a memory of at most four gigabytes. */
  lemma InsertionIsSafeIff(m: Memory, requested: Word32, maxMemoryPages: Word32)
    requires m.ValidLimits() && !m.exportsMalloc && AppHeapSize(requested) > 0
    requires var r := Instantiate(m, AppHeapSize(requested), maxMemoryPages);
             r.Ok? && r.layout.Size() <= MAX_LINEAR_MEMORY_SIZE
    ensures Safe(m, Instantiate(m, AppHeapSize(requested), maxMemoryPages).layout)
       <==> OnePage(m, maxMemoryPages) || (m.pageSize > 0 && HasRoom(m, AppHeapSize(requested)))
  {
    hide PageEnd, BeforeBase, Behind, WithPages, Wraps, KilobyteLeft, AppHeapSize, Safe, Layout.Size;
    var maxPages := GetMaxMem(maxMemoryPages, m.initPages, m.maxPages);
    var heapSize := AppHeapSize(requested);
    HeapSizeIsCapped(requested);
    if m.initPages == maxPages == 1 {
      SinglePage(m, heapSize, maxMemoryPages);
    } else if m.initPages == maxPages == 0 {
      WholeMemory(m, heapSize);
    } else if m.auxHeapBase.Some? && m.auxHeapBase.value < m.Size() {
      var base := m.auxHeapBase.value;
      if Wraps(base, heapSize, m.pageSize) {
        BeforeBaseWraps(m, maxPages, heapSize, base);
      } else {
        BeforeBaseIsSafeIff(m, maxPages, heapSize, base);
      }
    } else if Wraps(0, heapSize, m.pageSize) {
      BehindWraps(m, maxPages, heapSize);
    } else {
      BehindIsSafeIff(m, maxPages, heapSize);
    }
  }

  /** The source asserts more: that even the maximum number of pages is at most four gigabytes. */
  predicate LimitAsserted(l: Layout) {
    l.pageSize * l.maxPages <= MAX_LINEAR_MEMORY_SIZE
  }

  /** Then the memory is, and no page count in front of __heap_base wraps: there are two pages at least,
      so one is at most two gigabytes. */
  lemma AssertedNeverWraps(m: Memory, requested: Word32, maxMemoryPages: Word32)
    requires m.ValidLimits() && !m.exportsMalloc && AppHeapSize(requested) > 0 && !OnePage(m, maxMemoryPages)
    requires m.auxHeapBase.Some? && m.auxHeapBase.value < m.Size()
    requires var r := Instantiate(m, AppHeapSize(requested), maxMemoryPages); r.Ok? && LimitAsserted(r.layout)
    ensures Instantiate(m, AppHeapSize(requested), maxMemoryPages).layout.Size() <= MAX_LINEAR_MEMORY_SIZE
    ensures !Wraps(m.auxHeapBase.value, AppHeapSize(requested), m.pageSize)
  {
    hide BeforeBase, Behind, WithPages, Wraps, AppHeapSize, Layout.Size;
    HeapSizeIsCapped(requested);
    var maxPages, heapSize, base := GetMaxMem(maxMemoryPages, m.initPages, m.maxPages), AppHeapSize(requested),
                                    m.auxHeapBase.value;
    var l := BeforeBase(m, maxPages, heapSize, base).layout;
    LayoutSizeIs(l);
    SeveralPages(m);
    if Wraps(base, heapSize, m.pageSize) {
      WrappedLimits(m, maxPages, heapSize, base);
    } else {
      BeforeBaseGrows(m, maxPages, heapSize, base);
      MulMono(l.pageSize, l.initPages, l.maxPages);
    }
  }

  lemma SeveralPages(m: Memory)
    ensures m.Size() > 0 ==> m.pageSize > 0 && m.initPages > 0
  {
  }

  lemma WrappedLimits(m: Memory, maxPages: Word32, heapSize: Word32, base: Word64)
    requires m.pageSize > 0 && m.initPages <= maxPages <= DEFAULT_MAX_PAGES && maxPages >= 2
    requires heapSize <= APP_HEAP_SIZE_MAX && Wraps(base, heapSize, m.pageSize) && base < m.Size()
    requires BeforeBase(m, maxPages, heapSize, base).Ok?
    ensures !LimitAsserted(BeforeBase(m, maxPages, heapSize, base).layout)
  {
    hide PageEnd, ToPageEnd, Sub32, Memory.Size, WithPages;
    var p, moved := m.pageSize, base + heapSize;
    ToPageEndBound(base, p);
    Wrapped(heapSize, ToPageEnd(base, p), p);
    NoQuotient(heapSize - ToPageEnd(base, p) + p - 1 - TWO_32, p);
    var l := BeforeBase(m, maxPages, heapSize, base).layout;
    FewMorePages(m, maxPages, p, base, heapSize, 1, Some((moved + KB) % TWO_32));
    FewMorePages(m, maxPages, p, base, heapSize, 0, Some(moved % TWO_32));
    MulMono(p, 2, l.maxPages);
  }

  lemma FewMorePages(m: Memory, maxPages: Word32, pageSize: Word32, heapOffset: Word64, heapSize: Word32,
                     incPages: Word32, heapBase: Option<Word32>)
    requires 2 <= maxPages <= DEFAULT_MAX_PAGES && incPages <= 1
    ensures var r := WithPages(m, maxPages, pageSize, heapOffset, heapSize, incPages, heapBase);
            r.Ok? ==> r.layout.pageSize == pageSize && r.layout.maxPages >= 2
  {
  }

  lemma HeapSizeIsCapped(requested: Word32)
    ensures AppHeapSize(requested) <= APP_HEAP_SIZE_MAX
  {
  }

  lemma SinglePage(m: Memory, heapSize: Word32, maxMemoryPages: Word32)
    requires !m.exportsMalloc && m.initPages == GetMaxMem(maxMemoryPages, m.initPages, m.maxPages) == 1
    requires Instantiate(m, heapSize, maxMemoryPages).Ok?
    ensures Safe(m, Instantiate(m, heapSize, maxMemoryPages).layout)
  {
    hide GetMaxMem;
  }

  /** Pages of at least a kilobyte that together with the heap fit 32 bits are enough. */
  lemma InsertionIsSafe(m: Memory, requested: Word32, maxMemoryPages: Word32)
    requires m.ValidLimits() && !m.exportsMalloc && AppHeapSize(requested) > 0
    requires m.pageSize >= KB && m.pageSize + AppHeapSize(requested) <= TWO_32
    requires var r := Instantiate(m, AppHeapSize(requested), maxMemoryPages);
             r.Ok? && r.layout.Size() <= MAX_LINEAR_MEMORY_SIZE
    ensures Safe(m, Instantiate(m, AppHeapSize(requested), maxMemoryPages).layout)
  {
    hide PageEnd, Instantiate, AppHeapSize, OnePage, Safe, Layout.Size, ToPageEnd;
    InsertionIsSafeIff(m, requested, maxMemoryPages);
    PageEndAbove(AppHeapSize(requested), m.pageSize);
    if m.auxHeapBase.Some? && m.auxHeapBase.value < m.Size() {
      ToPageEndBound(m.auxHeapBase.value, m.pageSize);
      PageEndBelow(m.auxHeapBase.value, m.pageSize, m.initPages);
      SizeIs(m);
    }
  }

  /** The source divides by a page size of zero exactly when it has to insert pages. */
  lemma DividesByZeroIff(m: Memory, heapSize: Word32, maxMemoryPages: Word32)
    ensures Instantiate(m, heapSize, maxMemoryPages) == DivisionByZero
       <==> m.pageSize == 0 && heapSize > 0 && !m.exportsMalloc && !OnePage(m, maxMemoryPages)
  {
  }

  lemma PageEndAbove(n: nat, pageSize: Word32)
    requires pageSize > 0 && n > 0
    ensures PageEnd(n, pageSize) >= pageSize
  {
    PageEndIs(n, pageSize);
    SmallPosition(n, pageSize);
  }

  lemma SmallPosition(n: nat, pageSize: Word32)
    requires 0 < n
    ensures n < pageSize ==> ToPageEnd(n, pageSize) == pageSize - n
  {
    if n < pageSize {
      RemainderIs(n, pageSize, 0, n);
    }
  }

  /** A page of less than a kilobyte has no room for the one set aside, and the size of the heap wraps. */
  lemma SmallPageOverflows()
    ensures var m := Memory(512, 1, 2, false, None);
            var r := Instantiate(m, AppHeapSize(100), 0);
            r.Ok? && r.layout.HeapEnd() > r.layout.Size()
  {
    hide AppHeapSize, Behind;
    var m := Memory(512, 1, 2, false, None);
    assert AppHeapSize(100) == 104;
    assert Instantiate(m, 104, 0) == Behind(m, 2, 104);
    SmallPageLayout(m);
  }

  lemma SmallPageLayout(m: Memory)
    requires m == Memory(512, 1, 2, false, None)
    ensures Behind(m, 2, 104) == Ok(Layout(512, 2, 3, 512, 0xFFFF_FE00, None))
  {
    assert Sub32(Add32(104, 512), 1) == 615 && Div32(615, 512) == 1;
    assert Sub32(512, KB) == 0xFFFF_FE00;
  }

  /** With a page and a heap of more than four gigabytes together the number of pages wraps, where the
      assertion on the maximum number of pages is compiled out: this input breaks it. */
  lemma BigPageOverflows()
    ensures var m := Memory(0xF000_0000, 1, 2, false, Some(0xE800_0000));
            var r := Instantiate(m, AppHeapSize(0x2000_0000), 0);
            r.Ok? && r.layout.HeapEnd() > r.layout.Size() && !LimitAsserted(r.layout)
  {
    var m := Memory(0xF000_0000, 1, 2, false, Some(0xE800_0000));
    assert Instantiate(m, 0x2000_0000, 0) == BeforeBase(m, 2, 0x2000_0000, 0xE800_0000);
    assert ToPageEnd(0xE800_0000, 0xF000_0000) == 0x800_0000;
    assert Div32(0x7FF_FFFF, 0xF000_0000) == 0;
    assert ToPageEnd(0x1_0800_0000, 0xF000_0000) == 0xD800_0000;
  }
}
