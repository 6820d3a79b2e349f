/// What a site's value list says after any run of instrumentations.
module ProfileRuns {
  import opened Bytes
  import opened ValueProfile

  datatype Event = Event(target: Word64, countValue: Word64, available: bool)

  function RunList(events: seq<Event>): seq<Entry> {
    if events == [] then []
    else
      var e := events[|events| - 1];
      Recorded(RunList(events[..|events| - 1]), e.target, e.countValue, e.available)
  }

  /** How often a value was really seen. */
  function TrueTotal(events: seq<Event>, value: Word64): nat {
    if events == [] then 0
    else
      var e := events[|events| - 1];
      TrueTotal(events[..|events| - 1], value) + (if e.target == value then e.countValue else 0)
  }

  /** How often any value was seen. */
  function Total(events: seq<Event>): nat {
    if events == [] then 0 else Total(events[..|events| - 1]) + events[|events| - 1].countValue
  }

  function Sum(list: seq<Entry>): nat {
    if list == [] then 0 else Sum(list[..|list| - 1]) + list[|list| - 1].count
  }

  lemma {:induction false} SumUpdate(list: seq<Entry>, k: nat, e: Entry)
    requires k < |list|
    ensures Sum(list[k := e]) == Sum(list) - list[k].count + e.count
  {
    var n := |list| - 1;
    if k < n {
      assert list[k := e][..n] == list[..n][k := e];
      SumUpdate(list[..n], k, e);
    } else {
      assert list[k := e][..n] == list[..n];
    }
  }

  /** A full list that meets a new value: if some entry is at most as frequent, the value displaces the
      first of the rarest; if not, it is left out and the list loses what was seen of it.  No other
      entry changes. */
  lemma EvictsIff(list: seq<Entry>, target: Word64, countValue: Word64) returns (m: nat)
    requires list != [] && forall e <- list :: e.value != target
    ensures m < |list| == |WornDown(list, target, countValue)|
    ensures (forall i | 0 <= i < m :: list[m].count < list[i].count)
            && (forall i | m <= i < |list| :: list[m].count <= list[i].count)
    ensures var after := WornDown(list, target, countValue);
            && (forall i | 0 <= i < |list| && i != m :: after[i] == list[i])
            && ((exists e <- list :: e.count <= countValue) <==> (exists e <- after :: e.value == target))
            && (if exists e <- list :: e.count <= countValue then after[m] == Entry(target, countValue)
                else after[m].value == list[m].value && Sum(after) == Sum(list) - countValue)
  {
    hide FirstMin, Sum;
    m := FirstMin(list);
    var after := WornDown(list, target, countValue);
    if list[m].count <= countValue {
      assert list[m] in list && after[m] in after;
    } else {
      SumUpdate(list, m, Entry(list[m].value, list[m].count - countValue));
      forall e <- list ensures e.count > countValue {
      }
      forall e <- after ensures e.value != target {
        var i :| 0 <= i < |after| && after[i] == e;
        assert list[i] in list;
      }
    }
  }

  predicate Distinct(list: seq<Entry>) {
    forall i, j | 0 <= i < j < |list| :: list[i].value != list[j].value
  }

  /** What holds of the list after the events. */
  predicate Sound(list: seq<Entry>, events: seq<Event>) {
    && |list| <= MAX_VALUES_PER_SITE && Distinct(list)
    && (forall k | 0 <= k < |list| :: list[k].count <= TrueTotal(events, list[k].value))
    && Sum(list) <= Total(events)
  }

  lemma TotalsGrow(before: seq<Event>, e: Event, value: Word64)
    ensures Total(before + [e]) == Total(before) + e.countValue
    ensures TrueTotal(before + [e], value)
         == TrueTotal(before, value) + (if e.target == value then e.countValue else 0)
  {
    assert (before + [e])[..|before|] == before;
  }

  lemma SoundLater(list: seq<Entry>, before: seq<Event>, e: Event)
    requires Sound(list, before)
    ensures Sound(list, before + [e])
  {
    TotalsGrow(before, e, 0);
    forall k | 0 <= k < |list|
      ensures list[k].count <= TrueTotal(before + [e], list[k].value)
    {
      TotalsGrow(before, e, list[k].value);
    }
  }

  /** Changing one entry, to a value that is its own or new and a count that the event can account for. */
  lemma ReplaceStaysSound(list: seq<Entry>, before: seq<Event>, e: Event, k: nat, entry: Entry)
    requires Sound(list, before) && k < |list|
    requires entry.value == list[k].value || forall i | 0 <= i < |list| :: list[i].value != entry.value
    requires entry.count <= TrueTotal(before + [e], entry.value)
    requires entry.count <= list[k].count + e.countValue
    ensures Sound(list[k := entry], before + [e])
  {
    SoundLater(list, before, e);
    TotalsGrow(before, e, 0);
    SumUpdate(list, k, entry);
  }

  lemma AppendStaysSound(list: seq<Entry>, before: seq<Event>, e: Event)
    requires Sound(list, before) && |list| < MAX_VALUES_PER_SITE
    requires forall i | 0 <= i < |list| :: list[i].value != e.target
    ensures Sound(list + [Entry(e.target, e.countValue)], before + [e])
  {
    SoundLater(list, before, e);
    TotalsGrow(before, e, e.target);
    assert (list + [Entry(e.target, e.countValue)])[..|list|] == list;
  }

  lemma RecordedStaysSound(list: seq<Entry>, before: seq<Event>, e: Event)
    requires Sound(list, before)
    ensures Sound(Recorded(list, e.target, e.countValue, e.available), before + [e])
  {
    hide Sum, TrueTotal, Total, Find, FirstMin, IsFirstMin, Stuck;
    var k := Find(list, e.target);
    FindSpec(list, e.target);
    SoundLater(list, before, e);
    TotalsGrow(before, e, e.target);
    if e.countValue != 0 {
      if k < |list| {
        ReplaceStaysSound(list, before, e, k, Entry(e.target, (list[k].count + e.countValue) % TWO_64));
      } else if |list| >= MAX_VALUES_PER_SITE {
        var m := FirstMin(list);
        FirstMinSpec(list);
        TotalsGrow(before, e, list[m].value);
        if list[m].count <= e.countValue {
          ReplaceStaysSound(list, before, e, m, Entry(e.target, e.countValue));
        } else {
          ReplaceStaysSound(list, before, e, m, Entry(list[m].value, list[m].count - e.countValue));
        }
      } else if e.available {
        AppendStaysSound(list, before, e);
      }
    }
  }

  lemma FindSpec(list: seq<Entry>, value: Word64)
    ensures var k := Find(list, value);
            k <= |list| && (k < |list| ==> list[k].value == value) && forall i | 0 <= i < k :: list[i].value != value
  {
  }

  lemma FirstMinSpec(list: seq<Entry>)
    requires list != []
    ensures FirstMin(list) < |list|
  {
  }

  /** After every run the list has distinct values, at most 255 nodes, no count above the true one, and
      counts that together are no more than was seen. */
  lemma {:induction false} RunIsSound(events: seq<Event>)
    ensures Sound(RunList(events), events)
  {
    if events != [] {
      var before, e := events[..|events| - 1], events[|events| - 1];
      assert before + [e] == events;
      RunIsSound(before);
      RecordedStaysSound(RunList(before), before, e);
    }
  }

  // Counts that wrap round

  predicate Positive(list: seq<Entry>) {
    forall k | 0 <= k < |list| :: list[k].count > 0
  }

  /** The event brings the count of its value to exactly 2^64. */
  predicate WrapsToZero(list: seq<Entry>, e: Event) {
    var k := Find(list, e.target);
    e.countValue != 0 && k < |list| && list[k].count + e.countValue == TWO_64
  }

  predicate AlwaysPositive(events: seq<Event>) {
    events == [] || (AlwaysPositive(events[..|events| - 1]) && Positive(RunList(events)))
  }

  predicate NeverWrapsToZero(events: seq<Event>) {
    events == [] ||
    var before, e := events[..|events| - 1], events[|events| - 1];
    NeverWrapsToZero(before) && !WrapsToZero(RunList(before), e)
  }

  lemma PositiveStep(list: seq<Entry>, e: Event)
    requires Positive(list)
    ensures Positive(Recorded(list, e.target, e.countValue, e.available)) <==> !WrapsToZero(list, e)
  {
    hide FirstMin, IsFirstMin, Find;
    FindSpec(list, e.target);
    if list != [] {
      FirstMinSpec(list);
    }
    if WrapsToZero(list, e) {
      var k := Find(list, e.target);
      assert Recorded(list, e.target, e.countValue, e.available)[k].count == 0;
    }
  }

  /** The counts stay positive throughout a run if and only if no count is ever brought to 2^64. */
  lemma {:induction false} PositiveIff(events: seq<Event>)
    ensures AlwaysPositive(events) <==> NeverWrapsToZero(events)
  {
    hide Positive, WrapsToZero, Recorded;
    if events != [] {
      var before, e := events[..|events| - 1], events[|events| - 1];
      PositiveIff(before);
      if AlwaysPositive(before) {
        NothingIsPositive();
        PositiveStep(RunList(before), e);
      }
    }
  }

  lemma NothingIsPositive()
    ensures Positive([])
  {
  }

  /** No value was seen 2^64 times or more. */
  ghost predicate FitsWord(events: seq<Event>) {
    forall v: Word64 :: TrueTotal(events, v) < TWO_64
  }

  /** Then the counts are positive. */
  lemma {:induction false} RunIsPositive(events: seq<Event>)
    requires FitsWord(events)
    ensures Positive(RunList(events))
  {
    hide Find, TrueTotal;
    if events != [] {
      var before, e := events[..|events| - 1], events[|events| - 1];
      assert events == before + [e];
      FitsWordBefore(before, e);
      RunIsPositive(before);
      RunIsSound(before);
      TotalsGrow(before, e, e.target);
      FindSpec(RunList(before), e.target);
      PositiveStep(RunList(before), e);
      assert TrueTotal(events, e.target) < TWO_64;
    }
  }

  lemma FitsWordBefore(before: seq<Event>, e: Event)
    requires FitsWord(before + [e])
    ensures FitsWord(before)
  {
    forall v: Word64
      ensures TrueTotal(before, v) < TWO_64
    {
      TotalsGrow(before, e, v);
      assert TrueTotal(before + [e], v) < TWO_64;
    }
  }

  // A stuck list

  /** A full list is not stuck before 255 times the largest count has been seen. */
  lemma NotStuckBefore(events: seq<Event>)
    requires Total(events) < MAX_VALUES_PER_SITE * UINT64_MAX && |RunList(events)| == MAX_VALUES_PER_SITE
    ensures !Stuck(RunList(events))
  {
    RunIsSound(events);
    if Stuck(RunList(events)) {
      SumOfStuck(RunList(events));
    }
  }

  lemma {:induction false} SumOfStuck(list: seq<Entry>)
    requires Stuck(list)
    ensures Sum(list) == |list| * UINT64_MAX
  {
    if list != [] {
      SumOfStuck(list[..|list| - 1]);
      assert list[|list| - 1] in list;
    }
  }

  /** With exactly that many it can be: each of 255 values seen, one at a time as the callers record
      them, as often as a count can say.  The next value is where the null pointer is used. */
  lemma StuckAfterUnits()
    ensures var events, n := UnitRun(MAX_VALUES_PER_SITE), MAX_VALUES_PER_SITE;
            && (forall e <- events :: e.countValue == 1 && e.available)
            && Total(events) == n * UINT64_MAX
            && RunList(events) == Maxima(n) && Stuck(RunList(events))
            && forall v: Word64 | v >= n :: UsesNull(RunList(events), v, 1)
  {
    hide RunList, Total, Find;
    var n := MAX_VALUES_PER_SITE;
    UnitRunFills(n);
    forall v: Word64 | v >= n
      ensures UsesNull(Maxima(n), v, 1)
    {
      FindIs(Maxima(n), v, n);
    }
  }

  function Repeated(target: Word64, times: nat): seq<Event> {
    seq(times, _ => Event(target, 1, true))
  }

  /** The values 0 to n - 1, each UINT64_MAX times. */
  function UnitRun(n: nat): seq<Event>
    requires n <= MAX_VALUES_PER_SITE
  {
    if n == 0 then [] else UnitRun(n - 1) + Repeated(n - 1, UINT64_MAX)
  }

  function Maxima(n: nat): seq<Entry>
    requires n <= MAX_VALUES_PER_SITE
  {
    seq(n, i requires 0 <= i < n => Entry(i, UINT64_MAX))
  }

  lemma {:induction false} UnitRunFills(n: nat)
    requires n <= MAX_VALUES_PER_SITE
    ensures forall e <- UnitRun(n) :: e.countValue == 1 && e.available
    ensures Total(UnitRun(n)) == n * UINT64_MAX && RunList(UnitRun(n)) == Maxima(n)
  {
    hide RunList, Total, Find;
    if n == 0 {
      NothingRun();
    } else {
      UnitRunFills(n - 1);
      FindIs(Maxima(n - 1), n - 1, n - 1);
      RepeatedCounts(UnitRun(n - 1), n - 1, UINT64_MAX);
      assert Maxima(n) == Maxima(n - 1) + [Entry(n - 1, UINT64_MAX)];
    }
  }

  lemma NothingRun()
    ensures Total([]) == 0 && RunList([]) == []
  {
  }

  /** The first of the repetitions appends the value, the others count it. */
  lemma {:induction false} RepeatedCounts(before: seq<Event>, target: Word64, times: nat)
    requires times <= UINT64_MAX && |RunList(before)| < MAX_VALUES_PER_SITE
    requires Find(RunList(before), target) == |RunList(before)|
    ensures var events := before + Repeated(target, times);
            && Total(events) == Total(before) + times
            && RunList(events) == if times == 0 then RunList(before) else RunList(before) + [Entry(target, times)]
  {
    hide RunList, Total, Find, Recorded;
    var e := Event(target, 1, true);
    if times == 0 {
      assert before + Repeated(target, 0) == before;
    } else {
      var front := before + Repeated(target, times - 1);
      RepeatedCounts(before, target, times - 1);
      assert before + Repeated(target, times) == front + [e];
      RunListStep(front, e);
      TotalsGrow(front, e, 0);
      OneMoreRecorded(RunList(before), target, times);
    }
  }

  lemma RunListStep(before: seq<Event>, e: Event)
    ensures RunList(before + [e]) == Recorded(RunList(before), e.target, e.countValue, e.available)
  {
    hide Recorded;
    assert (before + [e])[..|before|] == before;
  }

  lemma OneMoreRecorded(list: seq<Entry>, target: Word64, times: nat)
    requires 0 < times <= UINT64_MAX && |list| < MAX_VALUES_PER_SITE && Find(list, target) == |list|
    ensures Recorded(if times == 1 then list else list + [Entry(target, times - 1)], target, 1, true)
         == list + [Entry(target, times)]
  {
    hide Find, FirstMin, IsFirstMin;
    FindSpec(list, target);
    if times > 1 {
      FindIs(list + [Entry(target, times - 1)], target, |list|);
    }
  }

  // Nothing lost

  /** The count the list has for a value. */
  function CountOf(list: seq<Entry>, value: Word64): nat {
    var k := Find(list, value);
    if k < |list| then list[k].count else 0
  }

  /** The values that were really seen. */
  function Targets(events: seq<Event>): set<Word64> {
    set e <- events | e.countValue != 0 :: e.target
  }

  /** Those that were seen while a node could be allocated. */
  function Admitted(events: seq<Event>): set<Word64> {
    set e <- events | e.countValue != 0 && e.available :: e.target
  }

  function Values(list: seq<Entry>): set<Word64> {
    set e <- list :: e.value
  }

  /** An event that does not find the list full, nor lacks a node. */
  predicate CleanEvent(list: seq<Entry>, e: Event) {
    e.countValue == 0 || Find(list, e.target) < |list| || (|list| < MAX_VALUES_PER_SITE && e.available)
  }

  /** No event found the list full or no node available: nothing was evicted, worn down or dropped. */
  predicate Clean(events: seq<Event>) {
    events == [] ||
    var before, e := events[..|events| - 1], events[|events| - 1];
    Clean(before) && CleanEvent(RunList(before), e)
  }

  /** Whenever a value was seen for the first time a node could be allocated. */
  predicate NewcomersFit(events: seq<Event>) {
    events == [] ||
    var before, e := events[..|events| - 1], events[|events| - 1];
    NewcomersFit(before) && (e.countValue != 0 && e.target !in Targets(before) ==> e.available)
  }

  /** While nothing is evicted, worn down or dropped every count is exact, up to the width of the word. */
  lemma {:induction false} CleanRunIsExact(events: seq<Event>, value: Word64)
    requires Clean(events)
    ensures CountOf(RunList(events), value) == TrueTotal(events, value) % TWO_64
    ensures Values(RunList(events)) == Targets(events)
  {
    if events != [] {
      var before, e := events[..|events| - 1], events[|events| - 1];
      assert events == before + [e];
      CleanRunIsExact(before, value);
      TotalsGrow(before, e, value);
      TargetsGrow(before, e);
      RecordedCounts(RunList(before), e, value);
      ModAdd(TrueTotal(before, value), if e.target == value then e.countValue else 0);
    }
  }

  lemma ModAdd(a: nat, c: nat)
    ensures (a % TWO_64 + c) % TWO_64 == (a + c) % TWO_64
  {
  }

  lemma TargetsGrow(before: seq<Event>, e: Event)
    ensures Targets(before + [e]) == Targets(before) + (if e.countValue == 0 then {} else {e.target})
    ensures Admitted(before + [e]) == Admitted(before) + (if e.countValue == 0 || !e.available then {} else {e.target})
  {
    assert forall x :: x in before + [e] <==> x in before || x == e;
  }

  lemma ValuesGrow(list: seq<Entry>, e: Entry)
    ensures Values(list + [e]) == Values(list) + {e.value}
  {
    assert forall x :: x in list + [e] <==> x in list || x == e;
  }

  /** One clean event adds its count to its value and leaves the other values alone. */
  lemma RecordedCounts(list: seq<Entry>, e: Event, value: Word64)
    requires CleanEvent(list, e)
    ensures var after := Recorded(list, e.target, e.countValue, e.available);
            && CountOf(after, value)
               == (CountOf(list, value) + if e.target == value then e.countValue else 0) % TWO_64
            && Values(after) == Values(list) + (if e.countValue == 0 then {} else {e.target})
  {
    hide Find, Values;
    var k, f := Find(list, e.target), Find(list, value);
    FindSpec(list, e.target);
    FindSpec(list, value);
    if e.countValue == 0 {
    } else if k < |list| {
      BumpCounts(list, k, e, value);
    } else {
      var after := list + [Entry(e.target, e.countValue)];
      FindIs(after, value, if f < |list| then f else if value == e.target then |list| else |list| + 1);
      ValuesGrow(list, Entry(e.target, e.countValue));
    }
  }

  lemma BumpCounts(list: seq<Entry>, k: nat, e: Event, value: Word64)
    requires k < |list| && k == Find(list, e.target)
    ensures var after := list[k := Entry(e.target, (list[k].count + e.countValue) % TWO_64)];
            && CountOf(after, value)
               == (CountOf(list, value) + if e.target == value then e.countValue else 0) % TWO_64
            && Values(after) == Values(list) + {e.target}
  {
    var after := list[k := Entry(e.target, (list[k].count + e.countValue) % TWO_64)];
    FindSpec(list, e.target);
    FindSpec(list, value);
    FindIs(after, value, Find(list, value));
    SameValues(list, after);
    assert list[k] in list;
  }

  lemma SameValues(list: seq<Entry>, after: seq<Entry>)
    requires |after| == |list| && forall i | 0 <= i < |list| :: after[i].value == list[i].value
    ensures Values(after) == Values(list)
  {
    forall v
      ensures v in Values(list) <==> v in Values(after)
    {
      if i :| 0 <= i < |list| && list[i].value == v {
        assert after[i] in after;
      }
      if i :| 0 <= i < |after| && after[i].value == v {
        assert list[i] in list;
      }
    }
  }

  lemma {:induction false} DistinctValuesCount(list: seq<Entry>)
    requires Distinct(list)
    ensures |Values(list)| == |list|
  {
    if list != [] {
      var n := |list| - 1;
      DistinctValuesCount(list[..n]);
      assert list == list[..n] + [list[n]];
      assert Values(list) == Values(list[..n]) + {list[n].value};
    }
  }

  lemma FindsValues(list: seq<Entry>, value: Word64)
    ensures Find(list, value) < |list| <==> value in Values(list)
  {
    FindSpec(list, value);
    if Find(list, value) < |list| {
      assert list[Find(list, value)] in list;
    }
  }

  lemma SubsetSize(a: set<Word64>, b: set<Word64>)
    requires a <= b
    ensures |a| <= |b|
  {
    assert b == a + (b - a);
  }

  /** Over every run the list has a node for every value seen while one could be allocated, up to 255;
      below that these are the values it holds. */
  lemma {:induction false} ListIsAdmitted(events: seq<Event>)
    ensures var n := |Admitted(events)|; |RunList(events)| == if n < MAX_VALUES_PER_SITE then n else MAX_VALUES_PER_SITE
    ensures |Admitted(events)| < MAX_VALUES_PER_SITE ==> Values(RunList(events)) == Admitted(events)
  {
    if events != [] {
      var before, e := events[..|events| - 1], events[|events| - 1];
      assert events == before + [e];
      ListIsAdmitted(before);
      TargetsGrow(before, e);
      AdmittedStep(RunList(before), e, Admitted(before), Admitted(events));
      RunIsSound(events);
      DistinctValuesCount(RunList(events));
    }
  }

  lemma AdmittedStep(list: seq<Entry>, e: Event, before: set<Word64>, after: set<Word64>)
    requires |list| == if |before| < MAX_VALUES_PER_SITE then |before| else MAX_VALUES_PER_SITE
    requires |before| < MAX_VALUES_PER_SITE ==> Values(list) == before
    requires after == before + (if e.countValue == 0 || !e.available then {} else {e.target})
    ensures var list' := Recorded(list, e.target, e.countValue, e.available);
            if |before| < MAX_VALUES_PER_SITE then Values(list') == after
            else |list'| == MAX_VALUES_PER_SITE <= |after|
  {
    hide Find, FirstMin, IsFirstMin, Stuck, Values;
    FindsValues(list, e.target);
    FirstMinIfAny(list);
    SubsetSize(before, after);
    if |before| < MAX_VALUES_PER_SITE && e.countValue != 0 && (e.target in before || e.available) {
      RecordedCounts(list, e, 0);
    }
  }

  lemma FirstMinIfAny(list: seq<Entry>)
    ensures list != [] ==> FirstMin(list) < |list|
  {
  }

  /** So the list is short enough for the assertion of the dump if and only if fewer than 255 values
      were seen while a node could be allocated. */
  lemma ShortIff(events: seq<Event>)
    ensures |RunList(events)| < MAX_VALUES_PER_SITE <==> |Admitted(events)| < MAX_VALUES_PER_SITE
  {
    ListIsAdmitted(events);
  }

  /** Nothing is evicted, worn down or dropped if and only if at most 255 values were seen and there was
      a node for each. */
  lemma {:induction false} CleanIff(events: seq<Event>)
    ensures Clean(events) <==> |Targets(events)| <= MAX_VALUES_PER_SITE && NewcomersFit(events)
  {
    if events != [] {
      var before, e := events[..|events| - 1], events[|events| - 1];
      assert events == before + [e];
      CleanIff(before);
      TargetsGrow(before, e);
      SubsetSize(Targets(before), Targets(events));
      if Clean(before) {
        var list := RunList(before);
        CleanRunIsExact(before, 0);
        RunIsSound(before);
        DistinctValuesCount(list);
        FindsValues(list, e.target);
      }
    }
  }

  // Exact counts

  ghost predicate Exact(events: seq<Event>) {
    forall v: Word64 :: CountOf(RunList(events), v) == TrueTotal(events, v)
  }

  /** A clean run is exact if and only if no value was seen 2^64 times or more. */
  lemma CleanRunIsExactIff(events: seq<Event>)
    requires Clean(events)
    ensures Exact(events) <==> FitsWord(events)
  {
    forall v: Word64
      ensures CountOf(RunList(events), v) == TrueTotal(events, v) <==> TrueTotal(events, v) < TWO_64
    {
      CleanRunIsExact(events, v);
      RemainderIsSmall(TrueTotal(events, v));
    }
  }

  lemma RemainderIsSmall(n: nat)
    ensures n % TWO_64 == n <==> n < TWO_64
  {
  }

  /** No event adds more to a count than it should. */
  lemma RecordedAddsNoMore(list: seq<Entry>, e: Event, v: Word64)
    requires Distinct(list)
    ensures CountOf(Recorded(list, e.target, e.countValue, e.available), v)
         <= CountOf(list, v) + if e.target == v then e.countValue else 0
  {
    hide Find, FirstMin, IsFirstMin, Stuck;
    FindSpec(list, e.target);
    FindSpec(list, v);
    FirstMinIfAny(list);
    var after := Recorded(list, e.target, e.countValue, e.available);
    FindSpec(after, v);
  }

  /** One that is not clean takes something away from its own value or an evicted one. */
  lemma DirtyEventLoses(list: seq<Entry>, e: Event) returns (v: Word64)
    requires Distinct(list) && Positive(list) && |list| <= MAX_VALUES_PER_SITE && !CleanEvent(list, e)
    ensures CountOf(Recorded(list, e.target, e.countValue, e.available), v)
          < CountOf(list, v) + if e.target == v then e.countValue else 0
  {
    hide Find, FirstMin, IsFirstMin;
    FindSpec(list, e.target);
    FirstMinIfAny(list);
    var after := Recorded(list, e.target, e.countValue, e.available);
    v := e.target;
    if |list| == MAX_VALUES_PER_SITE && !Stuck(list) && list[FirstMin(list)].count <= e.countValue {
      v := list[FirstMin(list)].value;
    }
    FindSpec(list, v);
    FindSpec(after, v);
  }

  lemma {:induction false} ExactMeansClean(events: seq<Event>)
    requires Exact(events)
    ensures Clean(events) && FitsWord(events)
  {
    if events != [] {
      var before, e := events[..|events| - 1], events[|events| - 1];
      assert events == before + [e];
      var list := RunList(before);
      RunIsSound(before);
      ExactBefore(before, e);
      ExactMeansClean(before);
      RunIsPositive(before);
      if !CleanEvent(list, e) {
        DirtyIsInexact(before, e);
      }
    }
    CleanRunIsExactIff(events);
  }

  lemma DirtyIsInexact(before: seq<Event>, e: Event)
    requires Exact(before) && Positive(RunList(before)) && !CleanEvent(RunList(before), e)
    ensures !Exact(before + [e])
  {
    hide CountOf, Recorded, TrueTotal, CleanEvent, Positive;
    RunIsSound(before);
    assert (before + [e])[..|before|] == before;
    var v := DirtyEventLoses(RunList(before), e);
    TotalsGrow(before, e, v);
    assert CountOf(RunList(before), v) == TrueTotal(before, v);
    assert CountOf(RunList(before + [e]), v) != TrueTotal(before + [e], v);
  }

  lemma ExactBefore(before: seq<Event>, e: Event)
    requires Exact(before + [e])
    ensures Exact(before)
  {
    hide CountOf, Recorded, TrueTotal;
    var list := RunList(before);
    assert (before + [e])[..|before|] == before;
    RunIsSound(before);
    forall v: Word64
      ensures CountOf(list, v) == TrueTotal(before, v)
    {
      RecordedAddsNoMore(list, e, v);
      TotalsGrow(before, e, v);
      CountIsSound(list, before, v);
      assert CountOf(RunList(before + [e]), v) == TrueTotal(before + [e], v);
    }
  }

  lemma CountIsSound(list: seq<Entry>, events: seq<Event>, v: Word64)
    requires Sound(list, events)
    ensures CountOf(list, v) <= TrueTotal(events, v)
  {
    FindSpec(list, v);
  }

  /** Over every run all counts are exact if and only if at most 255 values were seen, there was a node
      for each, and none was seen 2^64 times or more. */
  lemma ExactIff(events: seq<Event>)
    ensures Exact(events)
       <==> |Targets(events)| <= MAX_VALUES_PER_SITE && NewcomersFit(events) && FitsWord(events)
  {
    CleanIff(events);
    if Clean(events) {
      CleanRunIsExactIff(events);
    }
    if Exact(events) {
      ExactMeansClean(events);
    }
  }
}
