/// The value profile of one instrumented site: a bounded linked list of the
/// values seen and their counts, with eviction once it is full.
module ValueProfile {
  import opened Bytes

  const UINT64_MAX: Word64 := TWO_64 - 1
  const MAX_VALUES_PER_SITE: nat := 255

  datatype Entry = Entry(value: Word64, count: Word64)

  /** The position of a value, or the length of the list. */
  function Find(list: seq<Entry>, value: Word64): (k: nat)
    ensures k <= |list| && (k < |list| ==> list[k].value == value)
    ensures forall i | 0 <= i < k :: list[i].value != value
  {
    if list == [] || list[0].value == value then 0 else 1 + Find(list[1..], value)
  }

  /** The first of the entries with the smallest count. */
  predicate IsFirstMin(list: seq<Entry>, m: int) {
    && 0 <= m < |list|
    && (forall i | 0 <= i < m :: list[m].count < list[i].count)
    && (forall i | m <= i < |list| :: list[m].count <= list[i].count)
  }

  function FirstMin(list: seq<Entry>): (m: nat)
    requires list != []
    ensures IsFirstMin(list, m)
  {
    var n := |list| - 1;
    if n == 0 then 0
    else
      var m := FirstMin(list[..n]);
      assert forall i | 0 <= i < n :: list[i] == list[..n][i];
      if list[n].count < list[m].count then n else m
  }

  /** The full list: evict the rarest value if the new one is at least as frequent, or wear it down. */
  function WornDown(list: seq<Entry>, target: Word64, countValue: Word64): seq<Entry>
    requires list != []
  {
    var m := FirstMin(list);
    if list[m].count <= countValue then list[m := Entry(target, countValue)]
    else list[m := Entry(list[m].value, list[m].count - countValue)]
  }

  /** A list in which no count is below the largest a word can hold: the walk finds no rarest node. */
  predicate Stuck(list: seq<Entry>) {
    forall e <- list :: e.count == UINT64_MAX
  }

  /** Whether the source uses the null pointer it then has. */
  predicate UsesNull(list: seq<Entry>, target: Word64, countValue: Word64) {
    countValue != 0 && Find(list, target) == |list| >= MAX_VALUES_PER_SITE && Stuck(list)
  }

  /** What one instrumentation makes of a site's list; `available` is whether a node can be allocated.
      Where the source uses the null pointer of a stuck list nothing is recorded. */
  function Recorded(list: seq<Entry>, target: Word64, countValue: Word64, available: bool): seq<Entry> {
    var k := Find(list, target);
    if countValue == 0 then list
    else if k < |list| then list[k := Entry(target, (list[k].count + countValue) % TWO_64)]
    else if |list| >= MAX_VALUES_PER_SITE then
      if Stuck(list) then list else WornDown(list, target, countValue)
    else if available then list + [Entry(target, countValue)]
    else list
  }

  /** Of the first k entries, the m-th is the first of the rarest, if one of them is below the largest count. */
  predicate Rarest(list: seq<Entry>, k: nat, found: bool, m: int, minCount: Word64)
    requires k <= |list|
  {
    if found then 0 <= m < k && minCount == list[m].count < UINT64_MAX && IsFirstMin(list[..k], m)
    else minCount == UINT64_MAX && Stuck(list[..k])
  }

  lemma NoneIsRarest(list: seq<Entry>)
    ensures Rarest(list, 0, false, 0, UINT64_MAX)
  {
  }

  lemma RarestStep(list: seq<Entry>, k: nat, found: bool, m: int, minCount: Word64)
    requires k < |list| && Rarest(list, k, found, m, minCount)
    ensures if list[k].count < minCount then Rarest(list, k + 1, true, k, list[k].count)
            else Rarest(list, k + 1, found, m, minCount)
  {
    assert list[..k + 1] == list[..k] + [list[k]];
  }

  lemma RarestOfAll(list: seq<Entry>, found: bool, m: int, minCount: Word64)
    requires Rarest(list, |list|, found, m, minCount)
    ensures found <==> !Stuck(list)
    ensures found ==> 0 <= m < |list| && m == FirstMin(list)
  {
    assert list[..|list|] == list;
    if found {
      assert list[m] in list;
    }
  }

  class Node {
    var value: Word64
    var count: Word64
    var next: Node?

    constructor ()
      ensures value == 0 && count == 0 && next == null
    {
      value, count, next := 0, 0, null;
    }
  }

  class Site {
    var head: Node?
    ghost var nodes: seq<Node>

    /** The nodes are linked in order, each once, and fit the 8-bit counter of the walk. */
    ghost predicate Valid()
      reads this, nodes
    {
      && |nodes| <= MAX_VALUES_PER_SITE
      && head == (if nodes == [] then null else nodes[0])
      && (forall i {:trigger nodes[i].next} | 0 <= i < |nodes| ::
            nodes[i].next == if i + 1 < |nodes| then nodes[i + 1] else null)
      && (forall i, j | 0 <= i < j < |nodes| :: nodes[i] != nodes[j])
    }

    ghost function Contents(): (s: seq<Entry>)
      reads this, nodes
      ensures |s| == |nodes|
      ensures forall i | 0 <= i < |s| :: s[i] == Entry(nodes[i].value, nodes[i].count)
    {
      var ns := nodes;
      seq(|ns|, i requires 0 <= i < |ns| reads ns => Entry(ns[i].value, ns[i].count))
    }

    constructor ()
      ensures Valid() && Contents() == []
    {
      head, nodes := null, [];
    }

    /** The loop: it stops at the node that holds the target, or runs to the end with the last node
        and the first of the rarest ones. */
    method Walk(target: Word64)
      returns (cur: Node?, prev: Node?, minNode: Node?, vDataCount: nat, ghost k: nat, ghost m: nat)
      requires Valid()
      ensures k == Find(Contents(), target) && vDataCount == k
      ensures cur == if k < |nodes| then nodes[k] else null
      ensures k == |nodes| ==> prev == if k > 0 then nodes[k - 1] else null
      ensures k == |nodes| ==> (minNode == null <==> Stuck(Contents()))
      ensures k == |nodes| && minNode != null ==> m < |nodes| && minNode == nodes[m] && m == FirstMin(Contents())
    {
      hide Find, FirstMin, IsFirstMin, Stuck, Rarest;
      cur, prev, minNode := head, null, null;
      var minCount := UINT64_MAX;
      vDataCount := 0;
      ghost var list := Contents();
      k, m := 0, 0;
      NoneIsRarest(list);
      while cur != null && target != cur.value
        invariant 0 <= k <= |nodes| && vDataCount == k
        invariant cur == if k < |nodes| then nodes[k] else null
        invariant prev == if k > 0 then nodes[k - 1] else null
        invariant forall i | 0 <= i < k :: list[i].value != target
        invariant Rarest(list, k, minNode != null, m, minCount) && (minNode != null ==> m < k && minNode == nodes[m])
        decreases |nodes| - k
      {
        assert list[k] == Entry(cur.value, cur.count);
        RarestStep(list, k, minNode != null, m, minCount);
        if cur.count < minCount {
          minCount := cur.count;
          minNode := cur;
          m := k;
        }
        prev := cur;
        cur := cur.next;
        vDataCount := (vDataCount + 1) % 256;
        k := k + 1;
      }
      FindIs(list, target, k);
      if cur == null {
        RarestOfAll(list, minNode != null, m, minCount);
      }
    }

    /** Rewrite one node of the list in place. */
    method Rewrite(node: Node, ghost k: nat, value: Word64, count: Word64)
      requires Valid() && k < |nodes| && node == nodes[k]
      modifies node
      ensures Valid() && Contents() == old(Contents())[k := Entry(value, count)]
    {
      node.value := value;
      node.count := count;
    }

    /** Link a new node behind the last one. */
    method Append(prev: Node?, value: Word64, count: Word64)
      requires Valid() && |nodes| < MAX_VALUES_PER_SITE
      requires prev == if nodes == [] then null else nodes[|nodes| - 1]
      modifies this, nodes
      ensures Valid() && Contents() == old(Contents()) + [Entry(value, count)]
      ensures fresh(nodes[|nodes| - 1]) && nodes == old(nodes) + [nodes[|nodes| - 1]]
    {
      ghost var was, before := nodes, Contents();
      var node := new Node();
      node.value := value;
      node.count := node.count + count;
      if head == null {
        head := node;
      } else {
        prev.next := node;
      }
      nodes := was + [node];
      forall i | 0 <= i < |was|
        ensures nodes[i] == was[i] != node && Contents()[i] == before[i]
        ensures was[i].next == nodes[i + 1]
      {
        assert i < |was| - 1 ==> was[i] != was[|was| - 1];
      }
      assert Contents() == before + [Entry(value, count)];
    }

    /** The full list: the rarest node takes the new value, or is worn down. */
    method Wear(node: Node, ghost m: nat, target: Word64, countValue: Word64)
      requires Valid() && m < |nodes| && node == nodes[m] && m == FirstMin(Contents())
      modifies node
      ensures Valid() && Contents() == WornDown(old(Contents()), target, countValue)
    {
      hide FirstMin, IsFirstMin;
      if node.count <= countValue {
        Rewrite(node, m, target, countValue);
      } else {
        Rewrite(node, m, node.value, node.count - countValue);
      }
    }

    /** The source uses the rarest node of a full list unchecked; `fault` is where that is a null pointer. */
    method Instrument(target: Word64, countValue: Word64, available: bool) returns (fault: bool)
      requires Valid()
      modifies this, nodes
      ensures Valid() && (forall n <- nodes :: n in old(nodes) || fresh(n))
      ensures Contents() == Recorded(old(Contents()), target, countValue, available)
      ensures fault <==> UsesNull(old(Contents()), target, countValue)
    {
      hide Find, FirstMin, IsFirstMin, WornDown, Stuck, Rarest;
      if countValue == 0 {
        return false;
      }
      var cur, prev, minNode, vDataCount;
      ghost var k, m;
      cur, prev, minNode, vDataCount, k, m := Walk(target);
      if cur != null {
        Rewrite(cur, k, target, (cur.count + countValue) % TWO_64);
        return false;
      }
      if vDataCount >= MAX_VALUES_PER_SITE {
        if minNode == null {
          return true;
        }
        Wear(minNode, m, target, countValue);
        return false;
      }
      if available {
        Append(prev, target, countValue);
      }
      return false;
    }
  }

  lemma FindIs(list: seq<Entry>, value: Word64, k: nat)
    requires k <= |list| && (k < |list| ==> list[k].value == value)
    requires forall i | 0 <= i < k :: list[i].value != value
    ensures Find(list, value) == k
  {
  }
}
