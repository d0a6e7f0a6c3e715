/** The linked list of intervals that both loss lists embed in circular arrays.

    A node holds the numbers lo..hi.  It lives in the slot that is as far from the head's slot,
    around the array, as its first number is from the head's first number. */
module LossNodes {
  import opened Arith
  import opened Circular
  import opened SeqNo
  import opened IntSets

  datatype Node = Node(lo: int, hi: int, pos: int)

  // ----- Members -----

  function Members(nodes: seq<Node>): set<int> {
    if nodes == [] then {} else Range(nodes[0].lo, nodes[0].hi) + Members(nodes[1..])
  }

  function Total(nodes: seq<Node>): int {
    if nodes == [] then 0 else (nodes[0].hi - nodes[0].lo + 1) + Total(nodes[1..])
  }

  lemma {:induction false} InMembers(nodes: seq<Node>, x: int)
    ensures x in Members(nodes) <==> exists k :: 0 <= k < |nodes| && nodes[k].lo <= x <= nodes[k].hi
  {
    if nodes != [] {
      InMembers(nodes[1..], x);
      if exists k :: 0 <= k < |nodes| && nodes[k].lo <= x <= nodes[k].hi {
        var k :| 0 <= k < |nodes| && nodes[k].lo <= x <= nodes[k].hi;
        assert k > 0 ==> nodes[1..][k - 1] == nodes[k];
      }
    }
  }

  lemma {:induction false} MembersConcat(a: seq<Node>, b: seq<Node>)
    ensures Members(a + b) == Members(a) + Members(b)
    ensures Total(a + b) == Total(a) + Total(b)
  {
    if a == [] {
      assert a + b == b;
    } else {
      MembersConcat(a[1..], b);
      assert (a + b)[1..] == a[1..] + b;
    }
  }

  lemma MembersOne(n: Node)
    ensures Members([n]) == Range(n.lo, n.hi)
    ensures Total([n]) == n.hi - n.lo + 1
  {
    assert Members([n][1..]) == {};
  }

  /** Members of a list taken apart around position `k`. */
  lemma MembersAround(nodes: seq<Node>, k: nat)
    requires k < |nodes|
    ensures Members(nodes) == Members(nodes[..k]) + Range(nodes[k].lo, nodes[k].hi) + Members(nodes[k + 1..])
    ensures Total(nodes) == Total(nodes[..k]) + (nodes[k].hi - nodes[k].lo + 1) + Total(nodes[k + 1..])
  {
    hide Members, Total, Range;
    var front, one, rest := nodes[..k], [nodes[k]], nodes[k + 1..];
    assert nodes == front + (one + rest);
    MembersConcat(front, one + rest);
    MembersConcat(one, rest);
    MembersOne(nodes[k]);
  }

  // ----- Order -----

  ghost predicate Ascending(nodes: seq<Node>) {
    && (forall k :: 0 <= k < |nodes| ==> nodes[k].lo <= nodes[k].hi)
    && (forall j, k :: 0 <= j < k < |nodes| ==> nodes[j].lo < nodes[k].lo)
  }

  /** Intervals do not overlap, except that node `m` may reach into its successors. */
  ghost predicate DisjointBut(nodes: seq<Node>, m: int) {
    forall j, k :: 0 <= j < k < |nodes| && j != m ==> nodes[j].hi < nodes[k].lo
  }

  ghost predicate Disjoint(nodes: seq<Node>) {
    forall j, k :: 0 <= j < k < |nodes| ==> nodes[j].hi < nodes[k].lo
  }

  ghost predicate Spans(nodes: seq<Node>, size: int) {
    forall k :: 0 <= k < |nodes| ==> nodes[k].hi - nodes[0].lo < size
  }

  lemma {:induction false} TotalIsSize(nodes: seq<Node>)
    requires Ascending(nodes) && Disjoint(nodes)
    ensures |Members(nodes)| == Total(nodes)
    ensures nodes == [] <==> Total(nodes) == 0
  {
    if nodes != [] {
      var rest := nodes[1..];
      TotalIsSize(rest);
      RangeSize(nodes[0].lo, nodes[0].hi);
      forall x | x in Members(rest)
        ensures x !in Range(nodes[0].lo, nodes[0].hi)
      {
        InMembers(rest, x);
        var k :| 0 <= k < |rest| && rest[k].lo <= x <= rest[k].hi;
        assert rest[k] == nodes[k + 1];
      }
    }
  }

  lemma FirstIsMin(nodes: seq<Node>)
    requires nodes != [] && Ascending(nodes)
    ensures Members(nodes) != {} && Min(Members(nodes)) == nodes[0].lo
  {
    forall x | x in Members(nodes)
      ensures nodes[0].lo <= x
    {
      InMembers(nodes, x);
    }
    InMembers(nodes, nodes[0].lo);
    MinIs(Members(nodes), nodes[0].lo);
  }

  // ----- Arrays -----

  function EndWire(n: Node): int32 {
    if n.lo == n.hi then -1 else Wire(n.hi)
  }

  ghost predicate At(nodes: seq<Node>, p: int) {
    exists k :: 0 <= k < |nodes| && nodes[k].pos == p
  }

  function NextPos(nodes: seq<Node>, k: nat): int
    requires k < |nodes|
  {
    if k + 1 < |nodes| then nodes[k + 1].pos else -1
  }

  ghost predicate Placed(size: int, head: int, nodes: seq<Node>) {
    && (nodes != [] ==> 0 <= head < size && nodes[0].pos == head)
    && (forall k :: 0 <= k < |nodes| ==> nodes[k].lo - nodes[0].lo < size)
    && (forall k :: 0 <= k < |nodes| ==> nodes[k].pos == Slot(head, nodes[0].lo, nodes[k].lo, size))
  }

  /** The arrays hold exactly the nodes; every other slot is free. */
  ghost predicate Stored(d1: seq<int32>, d2: seq<int32>, size: int, nodes: seq<Node>) {
    && |d1| == size && |d2| == size
    && (forall k :: 0 <= k < |nodes| ==> 0 <= nodes[k].pos < size)
    && (forall k :: 0 <= k < |nodes| ==> d1[nodes[k].pos] == Wire(nodes[k].lo) && d2[nodes[k].pos] == EndWire(nodes[k]))
    && (forall p {:trigger At(nodes, p)} :: 0 <= p < size && d1[p] != -1 ==> At(nodes, p))
    && (forall p :: 0 <= p < size && d1[p] == -1 ==> d2[p] == -1)
  }

  ghost predicate Chained(nx: seq<int>, size: int, nodes: seq<Node>) {
    && |nx| == size
    && (forall k :: 0 <= k < |nodes| ==> 0 <= nodes[k].pos < size)
    && (forall k :: 0 <= k < |nodes| ==> nx[nodes[k].pos] == NextPos(nodes, k))
  }

  lemma PosDistinct(size: int, head: int, nodes: seq<Node>)
    requires Ascending(nodes) && Placed(size, head, nodes)
    ensures forall k :: 0 <= k < |nodes| ==> 0 <= nodes[k].pos < size
    ensures forall j, k :: 0 <= j < |nodes| && 0 <= k < |nodes| && j != k ==> nodes[j].pos != nodes[k].pos
  {
    forall k | 0 <= k < |nodes|
      ensures 0 <= nodes[k].pos < size
    {
      SlotInRange(head, nodes[0].lo, nodes[k].lo, size);
    }
    forall j, k | 0 <= j < |nodes| && 0 <= k < |nodes| && j != k
      ensures nodes[j].pos != nodes[k].pos
    {
      SlotInjective(head, nodes[0].lo, nodes[j].lo, nodes[k].lo, size);
    }
  }

  /** A slot is free unless a node starts at its index. */
  lemma SlotFree(d1: seq<int32>, d2: seq<int32>, size: int, head: int, nodes: seq<Node>, i: int)
    requires Ascending(nodes) && Placed(size, head, nodes) && Stored(d1, d2, size, nodes) && nodes != []
    requires forall k :: 0 <= k < |nodes| ==> nodes[k].lo != i && -size < nodes[k].lo - i < size
    ensures 0 <= Slot(head, nodes[0].lo, i, size) < size
    ensures d1[Slot(head, nodes[0].lo, i, size)] == -1
    ensures forall k :: 0 <= k < |nodes| ==> nodes[k].pos != Slot(head, nodes[0].lo, i, size)
  {
    SlotInRange(head, nodes[0].lo, i, size);
    forall k | 0 <= k < |nodes|
      ensures nodes[k].pos != Slot(head, nodes[0].lo, i, size)
    {
      SlotInjective(head, nodes[0].lo, nodes[k].lo, i, size);
    }
    assert !At(nodes, Slot(head, nodes[0].lo, i, size));
  }

  // ----- The three ways a list changes -----

  function InsertAt(nodes: seq<Node>, k: nat, n: Node): seq<Node>
    requires k <= |nodes|
  {
    nodes[..k] + [n] + nodes[k..]
  }

  function RemoveAt(nodes: seq<Node>, k: nat): seq<Node>
    requires k < |nodes|
  {
    nodes[..k] + nodes[k + 1..]
  }

  function SetHi(nodes: seq<Node>, k: nat, hi: int): seq<Node>
    requires k < |nodes|
  {
    nodes[k := nodes[k].(hi := hi)]
  }

  /** `a` belongs between nodes `k - 1` and `k`, and all first numbers stay within one turn. */
  ghost predicate Fits(size: int, nodes: seq<Node>, k: nat, a: int) {
    && k <= |nodes|
    && (forall j :: 0 <= j < k ==> nodes[j].lo < a)
    && (forall j :: k <= j < |nodes| ==> a < nodes[j].lo)
    && (forall j :: 0 <= j < |nodes| ==> -size < nodes[j].lo - a < size)
  }

  lemma NewPlaced(size: int, head: int, nodes: seq<Node>, k: nat, n: Node)
    requires nodes != [] && Ascending(nodes) && Placed(size, head, nodes)
    requires Fits(size, nodes, k, n.lo) && n.lo <= n.hi && n.pos == Slot(head, nodes[0].lo, n.lo, size)
    ensures Ascending(InsertAt(nodes, k, n))
    ensures Placed(size, if k == 0 then n.pos else head, InsertAt(nodes, k, n))
  {
    if k == 0 {
      forall j | 0 <= j < |nodes|
        ensures nodes[j].pos == Slot(n.pos, n.lo, nodes[j].lo, size)
      {
        SlotRebase(head, nodes[0].lo, n.lo, nodes[j].lo, size);
      }
      SlotInRange(head, nodes[0].lo, n.lo, size);
    }
  }

  lemma NewStored(d1: seq<int32>, d2: seq<int32>, size: int, nodes: seq<Node>, k: nat, n: Node)
    requires Stored(d1, d2, size, nodes) && k <= |nodes| && 0 <= n.pos < size
    requires forall j :: 0 <= j < |nodes| ==> nodes[j].pos != n.pos
    ensures Stored(d1[n.pos := Wire(n.lo)], d2[n.pos := EndWire(n)], size, InsertAt(nodes, k, n))
  {
    var d1', d2', nodes' := d1[n.pos := Wire(n.lo)], d2[n.pos := EndWire(n)], InsertAt(nodes, k, n);
    forall j | 0 <= j < |nodes'|
      ensures 0 <= nodes'[j].pos < size
      ensures d1'[nodes'[j].pos] == Wire(nodes'[j].lo) && d2'[nodes'[j].pos] == EndWire(nodes'[j])
    {
      assert nodes'[j] == if j < k then nodes[j] else if j == k then n else nodes[j - 1];
    }
    forall p | 0 <= p < size && d1'[p] != -1
      ensures At(nodes', p)
    {
      if p == n.pos {
        assert nodes'[k].pos == p;
      } else {
        assert At(nodes, p);
        var j :| 0 <= j < |nodes| && nodes[j].pos == p;
        assert nodes'[if j < k then j else j + 1] == nodes[j];
      }
    }
  }

  function LinkNew(nx: seq<int>, nodes: seq<Node>, k: nat, loc: int): seq<int>
    requires k <= |nodes| && 0 <= loc < |nx| && (k > 0 ==> 0 <= nodes[k - 1].pos < |nx|)
  {
    var nx1 := nx[loc := if k < |nodes| then nodes[k].pos else -1];
    if k > 0 then nx1[nodes[k - 1].pos := loc] else nx1
  }

  lemma NewChained(nx: seq<int>, size: int, nodes: seq<Node>, k: nat, n: Node)
    requires Chained(nx, size, nodes) && k <= |nodes| && 0 <= n.pos < size
    requires forall j :: 0 <= j < |nodes| ==> nodes[j].pos != n.pos
    requires forall i, j :: 0 <= i < |nodes| && 0 <= j < |nodes| && i != j ==> nodes[i].pos != nodes[j].pos
    ensures Chained(LinkNew(nx, nodes, k, n.pos), size, InsertAt(nodes, k, n))
  {
    var nx', nodes' := LinkNew(nx, nodes, k, n.pos), InsertAt(nodes, k, n);
    forall j | 0 <= j < |nodes'|
      ensures nx'[nodes'[j].pos] == NextPos(nodes', j)
    {
      if j < k - 1 {
        assert nodes'[j] == nodes[j] && nodes'[j + 1] == nodes[j + 1];
      } else if j > k {
        assert nodes'[j] == nodes[j - 1];
        assert j + 1 < |nodes'| ==> nodes'[j + 1] == nodes[j];
      }
    }
  }

  lemma EndPlaced(size: int, head: int, nodes: seq<Node>, k: nat, hi: int)
    requires Placed(size, head, nodes) && Ascending(nodes) && k < |nodes| && nodes[k].lo <= hi
    ensures Placed(size, head, SetHi(nodes, k, hi)) && Ascending(SetHi(nodes, k, hi))
  {
  }

  lemma EndStored(d1: seq<int32>, d2: seq<int32>, size: int, nodes: seq<Node>, k: nat, hi: int)
    requires Stored(d1, d2, size, nodes) && k < |nodes|
    requires forall i, j :: 0 <= i < |nodes| && 0 <= j < |nodes| && i != j ==> nodes[i].pos != nodes[j].pos
    ensures Stored(d1, d2[nodes[k].pos := EndWire(nodes[k].(hi := hi))], size, SetHi(nodes, k, hi))
  {
    var nodes' := SetHi(nodes, k, hi);
    forall p | At(nodes, p)
      ensures At(nodes', p)
    {
      var j :| 0 <= j < |nodes| && nodes[j].pos == p;
      assert nodes'[j].pos == p;
    }
    assert d1[nodes[k].pos] == Wire(nodes[k].lo);
  }

  lemma EndChained(nx: seq<int>, size: int, nodes: seq<Node>, k: nat, hi: int)
    requires Chained(nx, size, nodes) && k < |nodes|
    ensures Chained(nx, size, SetHi(nodes, k, hi))
  {
    var nodes' := SetHi(nodes, k, hi);
    forall j | 0 <= j < |nodes'|
      ensures nx[nodes'[j].pos] == NextPos(nodes', j)
    {
      assert nodes'[j].pos == nodes[j].pos && NextPos(nodes', j) == NextPos(nodes, j);
    }
  }

  lemma DropPlaced(size: int, head: int, nodes: seq<Node>, k: nat)
    requires Ascending(nodes) && Placed(size, head, nodes) && k < |nodes|
    ensures Ascending(RemoveAt(nodes, k))
    ensures Placed(size, if k == 0 then NextPos(nodes, 0) else head, RemoveAt(nodes, k))
  {
    var nodes' := RemoveAt(nodes, k);
    forall j | 0 <= j < |nodes'|
      ensures nodes'[j] == nodes[if j < k then j else j + 1]
    {
    }
    if k == 0 && |nodes| > 1 {
      DropFirstPlaced(size, head, nodes, nodes');
    }
  }

  lemma DropFirstPlaced(size: int, head: int, nodes: seq<Node>, nodes': seq<Node>)
    requires Ascending(nodes) && Placed(size, head, nodes) && |nodes| == |nodes'| + 1 > 1
    requires forall j :: 0 <= j < |nodes'| ==> nodes'[j] == nodes[j + 1]
    ensures Placed(size, nodes[1].pos, nodes')
  {
    var first := nodes[1];
    assert first == nodes'[0];
    SlotInRange(head, nodes[0].lo, first.lo, size);
    forall j | 0 <= j < |nodes'|
      ensures nodes'[j].lo - first.lo < size
      ensures nodes'[j].pos == Slot(first.pos, first.lo, nodes'[j].lo, size)
    {
      SlotRebase(head, nodes[0].lo, first.lo, nodes[j + 1].lo, size);
    }
  }

  lemma DropStored(d1: seq<int32>, d2: seq<int32>, size: int, nodes: seq<Node>, k: nat)
    requires Stored(d1, d2, size, nodes) && k < |nodes|
    requires forall i, j :: 0 <= i < |nodes| && 0 <= j < |nodes| && i != j ==> nodes[i].pos != nodes[j].pos
    ensures Stored(d1[nodes[k].pos := -1], d2[nodes[k].pos := -1], size, RemoveAt(nodes, k))
  {
    var d1', nodes' := d1[nodes[k].pos := -1], RemoveAt(nodes, k);
    forall p | 0 <= p < size && d1'[p] != -1
      ensures At(nodes', p)
    {
      assert At(nodes, p);
      var j :| 0 <= j < |nodes| && nodes[j].pos == p;
      assert nodes'[if j < k then j else j - 1] == nodes[j];
    }
  }

  function LinkPast(nx: seq<int>, nodes: seq<Node>, k: nat): seq<int>
    requires k < |nodes| && 0 <= nodes[k].pos < |nx| && (k > 0 ==> 0 <= nodes[k - 1].pos < |nx|)
  {
    if k > 0 then nx[nodes[k - 1].pos := nx[nodes[k].pos]] else nx
  }

  lemma DropChained(nx: seq<int>, size: int, nodes: seq<Node>, k: nat)
    requires Chained(nx, size, nodes) && k < |nodes|
    requires forall i, j :: 0 <= i < |nodes| && 0 <= j < |nodes| && i != j ==> nodes[i].pos != nodes[j].pos
    ensures Chained(LinkPast(nx, nodes, k), size, RemoveAt(nodes, k))
  {
    var nx', nodes' := LinkPast(nx, nodes, k), RemoveAt(nodes, k);
    forall j | 0 <= j < |nodes'|
      ensures nx'[nodes'[j].pos] == NextPos(nodes', j)
    {
      if j < k - 1 {
        assert nodes'[j] == nodes[j] && nodes'[j + 1] == nodes[j + 1];
      } else if j >= k {
        assert nodes'[j] == nodes[j + 1];
        assert j + 1 < |nodes'| ==> nodes'[j + 1] == nodes[j + 2];
      } else {
        assert nodes'[j] == nodes[k - 1];
        assert nx'[nodes'[j].pos] == nx[nodes[k].pos] == NextPos(nodes, k);
        assert k < |nodes'| ==> nodes'[k] == nodes[k + 1];
      }
    }
  }

  // ----- Composite changes -----

  /** What reading the slot of node `k` gives. */
  lemma NodeAt(d1: seq<int32>, d2: seq<int32>, nx: seq<int>, size: int, head: int, nodes: seq<Node>, k: nat)
    requires Embedded(d1, d2, nx, size, head, nodes) && k < |nodes|
    ensures 0 <= nodes[k].pos < size && |d1| == |d2| == |nx| == size && nodes[0].pos == head
    ensures d1[nodes[k].pos] == Wire(nodes[k].lo) && d2[nodes[k].pos] == EndWire(nodes[k])
    ensures nx[nodes[k].pos] == NextPos(nodes, k)
    ensures nodes[k].lo <= nodes[k].hi && 0 <= nodes[k].lo - nodes[0].lo < size
    ensures k + 1 < |nodes| ==> 0 <= nodes[k + 1].pos < size && nodes[k].lo < nodes[k + 1].lo
  {
  }

  /** Everything the arrays and the order have to satisfy. */
  ghost predicate Embedded(d1: seq<int32>, d2: seq<int32>, nx: seq<int>, size: int, head: int, nodes: seq<Node>) {
    && Ascending(nodes)
    && Placed(size, head, nodes)
    && Stored(d1, d2, size, nodes)
    && Chained(nx, size, nodes)
  }

  lemma InsertNode(d1: seq<int32>, d2: seq<int32>, nx: seq<int>, size: int, head: int, nodes: seq<Node>, k: nat,
      n: Node)
    requires nodes != [] && Embedded(d1, d2, nx, size, head, nodes)
    requires Fits(size, nodes, k, n.lo) && n.lo <= n.hi && n.pos == Slot(head, nodes[0].lo, n.lo, size)
    ensures 0 <= n.pos < size && d1[n.pos] == -1 && d2[n.pos] == -1
    ensures forall j :: 0 <= j < |nodes| ==> nodes[j].pos != n.pos
    ensures k > 0 ==> 0 <= nodes[k - 1].pos < |nx|
    ensures Embedded(d1[n.pos := Wire(n.lo)], d2[n.pos := EndWire(n)], LinkNew(nx, nodes, k, n.pos), size,
                     if k == 0 then n.pos else head, InsertAt(nodes, k, n))
  {
    SlotFree(d1, d2, size, head, nodes, n.lo);
    PosDistinct(size, head, nodes);
    NewPlaced(size, head, nodes, k, n);
    NewStored(d1, d2, size, nodes, k, n);
    NewChained(nx, size, nodes, k, n);
  }

  lemma SetEnd(d1: seq<int32>, d2: seq<int32>, nx: seq<int>, size: int, head: int, nodes: seq<Node>, k: nat, hi: int)
    requires Embedded(d1, d2, nx, size, head, nodes) && k < |nodes| && nodes[k].lo <= hi
    ensures 0 <= nodes[k].pos < size
    ensures Embedded(d1, d2[nodes[k].pos := EndWire(nodes[k].(hi := hi))], nx, size, head, SetHi(nodes, k, hi))
  {
    PosDistinct(size, head, nodes);
    EndPlaced(size, head, nodes, k, hi);
    EndStored(d1, d2, size, nodes, k, hi);
    EndChained(nx, size, nodes, k, hi);
  }

  lemma RemoveNode(d1: seq<int32>, d2: seq<int32>, nx: seq<int>, size: int, head: int, nodes: seq<Node>, k: nat)
    requires Embedded(d1, d2, nx, size, head, nodes) && k < |nodes|
    ensures 0 <= nodes[k].pos < size && nx[nodes[k].pos] == NextPos(nodes, k)
    ensures k > 0 ==> 0 <= nodes[k - 1].pos < |nx|
    ensures Embedded(d1[nodes[k].pos := -1], d2[nodes[k].pos := -1], LinkPast(nx, nodes, k), size,
                     if k == 0 then NextPos(nodes, 0) else head, RemoveAt(nodes, k))
  {
    PosDistinct(size, head, nodes);
    DropPlaced(size, head, nodes, k);
    DropStored(d1, d2, size, nodes, k);
    DropChained(nx, size, nodes, k);
  }

  /** Node `k` gives up its first number and moves one slot on. */
  function Shifted(nodes: seq<Node>, k: nat, loc: int): seq<Node>
    requires k < |nodes|
  {
    nodes[k := Node(nodes[k].lo + 1, nodes[k].hi, loc)]
  }

  function LinkShifted(nx: seq<int>, nodes: seq<Node>, k: nat, loc: int): seq<int>
    requires k < |nodes| && 0 <= loc < |nx| && 0 <= nodes[k].pos < |nx| && (k > 0 ==> 0 <= nodes[k - 1].pos < |nx|)
  {
    var nx1 := nx[loc := nx[nodes[k].pos]];
    if k > 0 then nx1[nodes[k - 1].pos := loc] else nx1
  }

  lemma ShiftSlot(d1: seq<int32>, d2: seq<int32>, size: int, head: int, nodes: seq<Node>, k: nat)
    requires Ascending(nodes) && Placed(size, head, nodes) && Stored(d1, d2, size, nodes)
    requires Disjoint(nodes) && Spans(nodes, size) && k < |nodes| && nodes[k].lo < nodes[k].hi
    ensures
      var loc := Slot(head, nodes[0].lo, nodes[k].lo + 1, size);
      && 0 <= loc < size && d1[loc] == -1 && d2[loc] == -1
      && (forall j :: 0 <= j < |nodes| ==> nodes[j].pos != loc)
  {
    assert nodes[k].hi - nodes[0].lo < size;
    SlotFree(d1, d2, size, head, nodes, nodes[k].lo + 1);
  }

  lemma ShiftPlaced(size: int, head: int, nodes: seq<Node>, k: nat, loc: int)
    requires Ascending(nodes) && Placed(size, head, nodes) && Disjoint(nodes) && Spans(nodes, size)
    requires k < |nodes| && nodes[k].lo < nodes[k].hi && loc == Slot(head, nodes[0].lo, nodes[k].lo + 1, size)
    ensures Ascending(Shifted(nodes, k, loc)) && Disjoint(Shifted(nodes, k, loc)) && Spans(Shifted(nodes, k, loc), size)
    ensures Placed(size, if k == 0 then loc else head, Shifted(nodes, k, loc))
  {
    var nodes' := Shifted(nodes, k, loc);
    assert nodes[k].hi - nodes[0].lo < size;
    if k == 0 {
      SlotInRange(head, nodes[0].lo, nodes[0].lo + 1, size);
      forall j | 0 <= j < |nodes'|
        ensures nodes'[j].pos == Slot(loc, nodes'[0].lo, nodes'[j].lo, size)
      {
        SlotRebase(head, nodes[0].lo, nodes[0].lo + 1, nodes'[j].lo, size);
      }
    }
  }

  lemma ShiftStored(d1: seq<int32>, d2: seq<int32>, size: int, nodes: seq<Node>, k: nat, loc: int)
    requires Stored(d1, d2, size, nodes) && k < |nodes| && 0 <= loc < size
    requires forall i, j :: 0 <= i < |nodes| && 0 <= j < |nodes| && i != j ==> nodes[i].pos != nodes[j].pos
    requires forall j :: 0 <= j < |nodes| ==> nodes[j].pos != loc
    ensures
      var n := Shifted(nodes, k, loc)[k];
      Stored(d1[loc := Wire(n.lo)][nodes[k].pos := -1], d2[loc := EndWire(n)][nodes[k].pos := -1], size,
          Shifted(nodes, k, loc))
  {
    var nodes' := Shifted(nodes, k, loc);
    var d1' := d1[loc := Wire(nodes'[k].lo)][nodes[k].pos := -1];
    forall p | 0 <= p < size && d1'[p] != -1
      ensures At(nodes', p)
    {
      if p == loc {
        assert nodes'[k].pos == p;
      } else {
        assert At(nodes, p);
        var j :| 0 <= j < |nodes| && nodes[j].pos == p;
        assert nodes'[j] == nodes[j];
      }
    }
  }

  lemma ShiftChained(nx: seq<int>, size: int, nodes: seq<Node>, k: nat, loc: int)
    requires k < |nodes| && 0 <= loc < size && Chained(nx, size, nodes)
    requires forall i, j :: 0 <= i < |nodes| && 0 <= j < |nodes| && i != j ==> nodes[i].pos != nodes[j].pos
    requires forall j :: 0 <= j < |nodes| ==> nodes[j].pos != loc
    ensures Chained(LinkShifted(nx, nodes, k, loc), size, Shifted(nodes, k, loc))
  {
    var nx', nodes' := LinkShifted(nx, nodes, k, loc), Shifted(nodes, k, loc);
    forall j | 0 <= j < |nodes'|
      ensures nx'[nodes'[j].pos] == NextPos(nodes', j)
    {
      assert j != k ==> nodes'[j] == nodes[j];
      assert j + 1 < |nodes| && j + 1 != k ==> nodes'[j + 1] == nodes[j + 1];
    }
  }

  lemma Shift(d1: seq<int32>, d2: seq<int32>, nx: seq<int>, size: int, head: int, nodes: seq<Node>, k: nat, loc: int)
    requires Embedded(d1, d2, nx, size, head, nodes) && Disjoint(nodes) && Spans(nodes, size)
    requires k < |nodes| && nodes[k].lo < nodes[k].hi && loc == Slot(head, nodes[0].lo, nodes[k].lo + 1, size)
    ensures 0 <= loc < size && 0 <= nodes[k].pos < size && loc != nodes[k].pos && d1[loc] == -1 && d2[loc] == -1
    ensures k > 0 ==> 0 <= nodes[k - 1].pos < size
    ensures Disjoint(Shifted(nodes, k, loc)) && Spans(Shifted(nodes, k, loc), size)
    ensures
      var n := Shifted(nodes, k, loc)[k];
      Embedded(d1[loc := Wire(n.lo)][nodes[k].pos := -1], d2[loc := EndWire(n)][nodes[k].pos := -1],
               LinkShifted(nx, nodes, k, loc), size, if k == 0 then loc else head, Shifted(nodes, k, loc))
  {
    ShiftSlot(d1, d2, size, head, nodes, k);
    PosDistinct(size, head, nodes);
    ShiftPlaced(size, head, nodes, k, loc);
    ShiftStored(d1, d2, size, nodes, k, loc);
    ShiftChained(nx, size, nodes, k, loc);
  }

  lemma ShiftMembers(nodes: seq<Node>, k: nat, loc: int)
    requires k < |nodes| && nodes[k].lo < nodes[k].hi && Ascending(nodes) && Disjoint(nodes)
    ensures Members(Shifted(nodes, k, loc)) == Members(nodes) - {nodes[k].lo}
    ensures Total(Shifted(nodes, k, loc)) == Total(nodes) - 1
  {
    hide Members, Total, Ascending, Disjoint;
    var nodes' := Shifted(nodes, k, loc);
    var lo, hi := nodes[k].lo, nodes[k].hi;
    MembersAround(nodes, k);
    MembersAround(nodes', k);
    assert nodes'[..k] == nodes[..k] && nodes'[k + 1..] == nodes[k + 1..];
    NotAround(nodes, k, lo);
    assert Range(lo + 1, hi) == Range(lo, hi) - {lo};
    TakeOut(Members(nodes[..k]), Range(lo, hi), Members(nodes[k + 1..]), lo);
  }

  /** A number inside node `k` is in no other node. */
  lemma NotAround(nodes: seq<Node>, k: nat, x: int)
    requires k < |nodes| && Ascending(nodes) && Disjoint(nodes) && nodes[k].lo <= x <= nodes[k].hi
    ensures x !in Members(nodes[..k]) && x !in Members(nodes[k + 1..])
  {
    InMembers(nodes[..k], x);
    InMembers(nodes[k + 1..], x);
    forall j | 0 <= j < |nodes| && j != k
      ensures !(nodes[j].lo <= x <= nodes[j].hi)
    {
    }
  }

  lemma RemoveMembers(nodes: seq<Node>, k: nat)
    requires k < |nodes| && Ascending(nodes) && Disjoint(nodes) && nodes[k].lo == nodes[k].hi
    ensures Members(RemoveAt(nodes, k)) == Members(nodes) - {nodes[k].lo}
    ensures Total(RemoveAt(nodes, k)) == Total(nodes) - 1
  {
    MembersAround(nodes, k);
    MembersConcat(nodes[..k], nodes[k + 1..]);
    NotAround(nodes, k, nodes[k].lo);
  }

  lemma SpanNear(nodes: seq<Node>, size: int, k: nat)
    requires Ascending(nodes) && Spans(nodes, size) && k < |nodes|
    ensures 0 <= nodes[k].lo - nodes[0].lo <= nodes[k].hi - nodes[0].lo < size
  {
  }

  lemma RemoveKeepsOrder(nodes: seq<Node>, size: int, k: nat)
    requires Ascending(nodes) && Disjoint(nodes) && Spans(nodes, size) && k < |nodes|
    ensures Disjoint(RemoveAt(nodes, k)) && Spans(RemoveAt(nodes, k), size)
  {
  }

  // ----- Overlapping intervals -----

  function Joined(nodes: seq<Node>, m: nat): seq<Node>
    requires m + 1 < |nodes|
  {
    SetHi(RemoveAt(nodes, m + 1), m, if nodes[m].hi < nodes[m + 1].hi then nodes[m + 1].hi else nodes[m].hi)
  }

  /** How much node `m + 1` repeats of node `m`. */
  function Overlap(nodes: seq<Node>, m: nat): int
    requires m + 1 < |nodes|
  {
    (if nodes[m].hi < nodes[m + 1].hi then nodes[m].hi else nodes[m + 1].hi) - nodes[m + 1].lo + 1
  }

  /** Joining an interval with the next one it touches keeps the members and takes off the overlap. */
  lemma JoinMembers(nodes: seq<Node>, m: nat)
    requires m + 1 < |nodes| && Ascending(nodes) && nodes[m + 1].lo <= nodes[m].hi + 1
    ensures Members(Joined(nodes, m)) == Members(nodes)
    ensures Total(Joined(nodes, m)) == Total(nodes) - Overlap(nodes, m)
  {
    hide Members, Total, Range;
    var x, y := nodes[m], nodes[m + 1];
    var joined := Joined(nodes, m);
    var front, one, rest := nodes[..m], [y], nodes[m + 2..];
    MembersAround(nodes, m);
    assert nodes[m + 1..] == one + rest;
    MembersConcat(one, rest);
    MembersOne(y);
    MembersAround(joined, m);
    assert joined[..m] == front && joined[m + 1..] == rest;
    assert Range(joined[m].lo, joined[m].hi) == Range(x.lo, x.hi) + Range(y.lo, y.hi);
  }

  lemma JoinOrder(nodes: seq<Node>, m: nat, size: int)
    requires m + 1 < |nodes| && Ascending(nodes) && DisjointBut(nodes, m) && Spans(nodes, size)
    ensures Ascending(Joined(nodes, m)) && DisjointBut(Joined(nodes, m), m) && Spans(Joined(nodes, m), size)
    ensures |Joined(nodes, m)| == |nodes| - 1
    ensures Joined(nodes, m)[m].lo == nodes[m].lo && Joined(nodes, m)[m].pos == nodes[m].pos
  {
    var joined := Joined(nodes, m);
    forall k | 0 <= k < |joined| && k != m
      ensures joined[k] == nodes[if k < m then k else k + 1]
    {
    }
  }

  /** Joining stops at the first gap. */
  lemma GapDisjoint(nodes: seq<Node>, m: nat)
    requires m < |nodes| && Ascending(nodes) && DisjointBut(nodes, m)
    requires m + 1 < |nodes| ==> nodes[m].hi < nodes[m + 1].lo
    ensures Disjoint(nodes)
  {
    forall j, k | 0 <= j < k < |nodes|
      ensures nodes[j].hi < nodes[k].lo
    {
      if j == m && k > m + 1 {
        assert nodes[m + 1].lo < nodes[k].lo;
      }
    }
  }

  lemma JoinEmbedded(d1: seq<int32>, d2: seq<int32>, nx: seq<int>, size: int, head: int, nodes: seq<Node>, m: nat)
    requires Embedded(d1, d2, nx, size, head, nodes) && m + 1 < |nodes|
    ensures
      var i, loc := nodes[m + 1].pos, nodes[m].pos;
      && 0 <= i < size && 0 <= loc < size && i != loc
      && nx[loc] == i
      && Embedded(d1[i := -1], d2[i := -1][loc := EndWire(Joined(nodes, m)[m])], nx[loc := nx[i]], size, head,
          Joined(nodes, m))
  {
    var i, loc := nodes[m + 1].pos, nodes[m].pos;
    PosDistinct(size, head, nodes);
    RemoveNode(d1, d2, nx, size, head, nodes, m + 1);
    var kept := RemoveAt(nodes, m + 1);
    assert kept[m] == nodes[m];
    SetEnd(d1[i := -1], d2[i := -1], nx[loc := nx[i]], size, head, kept, m, Joined(nodes, m)[m].hi);
  }

  // ----- Adding an interval -----

  /** Adding `a..b` keeps the list within one turn of the array. */
  ghost predicate Roomy(nodes: seq<Node>, a: int, b: int, size: int) {
    && a <= b < a + size
    && (forall k :: 0 <= k < |nodes| ==> nodes[k].hi - a < size && b - nodes[k].lo < size)
  }

  lemma RoomyFromMembers(nodes: seq<Node>, a: int, b: int, size: int)
    requires Ascending(nodes) && a <= b < a + size
    requires forall x <- Members(nodes) :: x - a < size && b - x < size
    ensures Roomy(nodes, a, b, size)
  {
    forall k | 0 <= k < |nodes|
      ensures nodes[k].hi - a < size && b - nodes[k].lo < size
    {
      InMembers(nodes, nodes[k].hi);
      InMembers(nodes, nodes[k].lo);
    }
  }

  lemma RoomyNear(nodes: seq<Node>, a: int, b: int, size: int, k: nat)
    requires Ascending(nodes) && Roomy(nodes, a, b, size) && k < |nodes|
    ensures nodes[k].lo <= nodes[k].hi
    ensures -size < nodes[k].lo - a < size && -size < nodes[k].lo - b < size
    ensures -size < nodes[k].hi - a < size && -size < nodes[k].hi - b < size
  {
  }

  lemma InsertMembers(nodes: seq<Node>, k: nat, n: Node)
    requires k <= |nodes|
    ensures Members(InsertAt(nodes, k, n)) == Members(nodes) + Range(n.lo, n.hi)
    ensures Total(InsertAt(nodes, k, n)) == Total(nodes) + (n.hi - n.lo + 1)
  {
    var nodes' := InsertAt(nodes, k, n);
    MembersAround(nodes', k);
    assert nodes'[..k] == nodes[..k] && nodes'[k + 1..] == nodes[k..];
    assert nodes == nodes[..k] + nodes[k..];
    MembersConcat(nodes[..k], nodes[k..]);
  }

  /** A new interval after all that start lower and end before it. */
  lemma InsertOrder(nodes: seq<Node>, k: nat, n: Node, size: int)
    requires Ascending(nodes) && Disjoint(nodes) && Spans(nodes, size) && Roomy(nodes, n.lo, n.hi, size)
    requires Fits(size, nodes, k, n.lo) && (k > 0 ==> nodes[k - 1].hi < n.lo)
    ensures DisjointBut(InsertAt(nodes, k, n), k) && Spans(InsertAt(nodes, k, n), size)
  {
    hide InsertAt;
    var nodes' := InsertAt(nodes, k, n);
    InsertedSize(nodes, k, n);
    forall i, j | 0 <= i < j < |nodes'| && i != k
      ensures nodes'[i].hi < nodes'[j].lo
    {
      InsertedAt(nodes, k, n, i);
      InsertedAt(nodes, k, n, j);
      if j == k {
        EndsBefore(nodes, if i < k then i else i - 1, k);
      } else {
        LaterThanInserted(nodes, k, n, size, i, j);
      }
    }
    InsertSpans(nodes, k, n, size);
  }

  lemma InsertedSize(nodes: seq<Node>, k: nat, n: Node)
    requires k <= |nodes|
    ensures |InsertAt(nodes, k, n)| == |nodes| + 1
  {
  }

  lemma InsertedAt(nodes: seq<Node>, k: nat, n: Node, i: nat)
    requires k <= |nodes| && i <= |nodes|
    ensures |InsertAt(nodes, k, n)| == |nodes| + 1
    ensures InsertAt(nodes, k, n)[i] == if i < k then nodes[i] else if i == k then n else nodes[i - 1]
  {
  }

  lemma LaterThanInserted(nodes: seq<Node>, k: nat, n: Node, size: int, i: nat, j: nat)
    requires Disjoint(nodes) && k <= |nodes| && i < j <= |nodes| && i != k && j != k
    ensures nodes[if i < k then i else i - 1].hi < nodes[if j < k then j else j - 1].lo
  {
  }

  lemma InsertSpans(nodes: seq<Node>, k: nat, n: Node, size: int)
    requires Spans(nodes, size) && Roomy(nodes, n.lo, n.hi, size) && Fits(size, nodes, k, n.lo) && k <= |nodes|
    ensures Spans(InsertAt(nodes, k, n), size)
  {
    hide InsertAt;
    var nodes' := InsertAt(nodes, k, n);
    InsertedAt(nodes, k, n, 0);
    forall j | 0 <= j < |nodes'|
      ensures nodes'[j].hi - nodes'[0].lo < size
    {
      InsertedAt(nodes, k, n, j);
    }
  }

  lemma EndsBefore(nodes: seq<Node>, j: nat, k: nat)
    requires Ascending(nodes) && Disjoint(nodes) && j < k <= |nodes|
    ensures nodes[j].hi <= nodes[k - 1].hi
  {
    assert j < k - 1 ==> nodes[j].hi < nodes[k - 1].lo;
  }

  lemma SetHiMembers(nodes: seq<Node>, k: nat, a: int, b: int)
    requires k < |nodes| && nodes[k].lo <= a <= nodes[k].hi + 1 && nodes[k].hi <= b
    ensures Members(SetHi(nodes, k, b)) == Members(nodes) + Range(a, b)
    ensures Total(SetHi(nodes, k, b)) == Total(nodes) + (b - nodes[k].hi)
  {
    var nodes' := SetHi(nodes, k, b);
    MembersAround(nodes, k);
    MembersAround(nodes', k);
    assert nodes'[..k] == nodes[..k] && nodes'[k + 1..] == nodes[k + 1..];
    assert Range(nodes[k].lo, b) == Range(nodes[k].lo, nodes[k].hi) + Range(a, b);
  }

  lemma SetHiOrder(nodes: seq<Node>, k: nat, a: int, b: int, size: int)
    requires Ascending(nodes) && Disjoint(nodes) && Spans(nodes, size) && Roomy(nodes, a, b, size)
    requires k < |nodes| && nodes[k].hi <= b
    ensures Ascending(SetHi(nodes, k, b)) && DisjointBut(SetHi(nodes, k, b), k) && Spans(SetHi(nodes, k, b), size)
  {
  }

  /** `a..b` lies inside node `k`. */
  lemma AlreadyIn(nodes: seq<Node>, k: nat, a: int, b: int)
    requires k < |nodes| && nodes[k].lo <= a && b <= nodes[k].hi
    ensures Members(nodes) + Range(a, b) == Members(nodes)
  {
    MembersAround(nodes, k);
  }

  /** The slot of a lookup holds the number looked up exactly if a node starts with it. */
  lemma Lookup(d1: seq<int32>, d2: seq<int32>, nx: seq<int>, size: int, head: int, nodes: seq<Node>, a: int, loc: int)
    returns (k: nat)
    requires nodes != [] && Embedded(d1, d2, nx, size, head, nodes) && size <= TH
    requires forall j :: 0 <= j < |nodes| ==> -size < nodes[j].lo - a < size
    requires loc == Slot(head, nodes[0].lo, a, size)
    ensures 0 <= loc < size
    ensures d1[loc] == Wire(a) ==> k < |nodes| && nodes[k].lo == a && nodes[k].pos == loc
    ensures d1[loc] != Wire(a) ==> forall j :: 0 <= j < |nodes| ==> nodes[j].lo != a
  {
    SlotInRange(head, nodes[0].lo, a, size);
    k := 0;
    if j :| 0 <= j < |nodes| && nodes[j].lo == a {
      k := j;
    } else {
      SlotFree(d1, d2, size, head, nodes, a);
    }
  }

  // ----- Taking an interval apart -----

  /** Node `k` split after `cut`; the second half starts in slot `loc`. */
  function Halved(nodes: seq<Node>, k: nat, cut: int, loc: int): seq<Node>
    requires k < |nodes|
  {
    InsertAt(SetHi(nodes, k, cut), k + 1, Node(cut + 1, nodes[k].hi, loc))
  }

  lemma HalveEmbedded(d1: seq<int32>, d2: seq<int32>, nx: seq<int>, size: int, head: int, nodes: seq<Node>, k: nat,
      cut: int, loc: int)
    requires Embedded(d1, d2, nx, size, head, nodes) && Disjoint(nodes) && Spans(nodes, size)
    requires k < |nodes| && nodes[k].lo <= cut < nodes[k].hi && loc == Slot(head, nodes[0].lo, cut + 1, size)
    ensures
      var i := nodes[k].pos;
      && 0 <= i < size && 0 <= loc < size && i != loc
      && d1[loc] == -1 && d2[loc] == -1
      && Embedded(d1[loc := Wire(cut + 1)],
                  d2[i := EndWire(nodes[k].(hi := cut))][loc := EndWire(Node(cut + 1, nodes[k].hi, loc))],
                  nx[loc := nx[i]][i := loc], size, head, Halved(nodes, k, cut, loc))
  {
    hide Placed, Stored, Chained, Ascending, Disjoint, Spans, Fits, Wire, Slot;
    var i, n, e := nodes[k].pos, Node(cut + 1, nodes[k].hi, loc), EndWire(nodes[k].(hi := cut));
    var low := SetHi(nodes, k, cut);
    NodeAt(d1, d2, nx, size, head, nodes, k);
    SetEnd(d1, d2, nx, size, head, nodes, k, cut);
    HalveFits(nodes, size, k, cut);
    LowFirst(nodes, k, cut);
    InsertNode(d1, d2[i := e], nx, size, head, low, k + 1, n);
    assert low[k].pos == i;
    assert LinkNew(nx, low, k + 1, loc) == nx[loc := nx[i]][i := loc];
  }

  lemma LowFirst(nodes: seq<Node>, k: nat, cut: int)
    requires k < |nodes|
    ensures
      var low := SetHi(nodes, k, cut);
      && low[0].lo == nodes[0].lo && low[k].pos == nodes[k].pos
      && (forall j :: k < j < |nodes| ==> low[j] == nodes[j])
  {
  }

  lemma HalveFits(nodes: seq<Node>, size: int, k: nat, cut: int)
    requires Ascending(nodes) && Disjoint(nodes) && Spans(nodes, size)
    requires k < |nodes| && nodes[k].lo <= cut < nodes[k].hi
    ensures Fits(size, SetHi(nodes, k, cut), k + 1, cut + 1)
  {
    SpanNear(nodes, size, k);
  }

  lemma HalveMembers(nodes: seq<Node>, k: nat, cut: int, loc: int)
    requires k < |nodes| && nodes[k].lo <= cut < nodes[k].hi
    ensures Members(Halved(nodes, k, cut, loc)) == Members(nodes)
    ensures Total(Halved(nodes, k, cut, loc)) == Total(nodes)
  {
    var low := SetHi(nodes, k, cut);
    InsertMembers(low, k + 1, Node(cut + 1, nodes[k].hi, loc));
    MembersAround(nodes, k);
    MembersAround(low, k);
    assert low[..k] == nodes[..k] && low[k + 1..] == nodes[k + 1..];
    assert Range(nodes[k].lo, nodes[k].hi) == Range(nodes[k].lo, cut) + Range(cut + 1, nodes[k].hi);
  }

  lemma HalveOrder(nodes: seq<Node>, size: int, k: nat, cut: int, loc: int)
    requires Ascending(nodes) && Disjoint(nodes) && Spans(nodes, size)
    requires k < |nodes| && nodes[k].lo <= cut < nodes[k].hi
    ensures Disjoint(Halved(nodes, k, cut, loc)) && Spans(Halved(nodes, k, cut, loc), size)
    ensures |Halved(nodes, k, cut, loc)| == |nodes| + 1
    ensures
      forall j :: 0 <= j <= k ==>
        Halved(nodes, k, cut, loc)[j] == if j == k then nodes[k].(hi := cut) else nodes[j]
    ensures Halved(nodes, k, cut, loc)[k + 1] == Node(cut + 1, nodes[k].hi, loc)
    ensures forall j :: k + 1 < j <= |nodes| ==> Halved(nodes, k, cut, loc)[j] == nodes[j - 1]
  {
  }

  lemma RemoveFirstMembers(nodes: seq<Node>)
    requires nodes != [] && Ascending(nodes) && Disjoint(nodes)
    ensures Members(RemoveAt(nodes, 0)) == Members(nodes) - Range(nodes[0].lo, nodes[0].hi)
    ensures Total(RemoveAt(nodes, 0)) == Total(nodes) - (nodes[0].hi - nodes[0].lo + 1)
    ensures RemoveAt(nodes, 0) == nodes[1..]
  {
    assert RemoveAt(nodes, 0) == nodes[1..];
    forall x | nodes[0].lo <= x <= nodes[0].hi
      ensures x !in Members(nodes[1..])
    {
      NotAround(nodes, 0, x);
    }
  }

  /** The first `t` nodes end at or before `cut`, all others start after it. */
  ghost predicate CutAt(nodes: seq<Node>, t: nat, cut: int) {
    && t <= |nodes|
    && (forall j :: 0 <= j < t ==> nodes[j].hi <= cut)
    && (forall j :: t <= j < |nodes| ==> cut < nodes[j].lo)
  }

  lemma CutDone(nodes: seq<Node>, cut: int)
    requires CutAt(nodes, 0, cut)
    ensures Above(Members(nodes), cut) == Members(nodes)
  {
    forall x | x in Members(nodes)
      ensures cut < x
    {
      InMembers(nodes, x);
    }
  }

  function PosOrEnd(nodes: seq<Node>, t: nat): int {
    if t < |nodes| then nodes[t].pos else -1
  }

  lemma ButDisjoint(nodes: seq<Node>, m: int)
    requires Disjoint(nodes)
    ensures DisjointBut(nodes, m)
  {
  }

  lemma RoomyAll(nodes: seq<Node>, a: int, b: int, size: int)
    requires Ascending(nodes) && Roomy(nodes, a, b, size)
    ensures forall j :: 0 <= j < |nodes| ==> -size < nodes[j].lo - a < size
  {
  }

  lemma FitsFirst(nodes: seq<Node>, a: int, b: int, size: int)
    requires nodes != [] && Ascending(nodes) && Roomy(nodes, a, b, size) && a < nodes[0].lo
    ensures Fits(size, nodes, 0, a)
  {
  }

  lemma FitsAfter(nodes: seq<Node>, k: nat, a: int, b: int, size: int)
    requires Ascending(nodes) && Roomy(nodes, a, b, size)
    requires k < |nodes| && nodes[k].lo < a && (k + 1 < |nodes| ==> a < nodes[k + 1].lo)
    ensures Fits(size, nodes, k + 1, a)
  {
  }

  lemma NearMembers(nodes: seq<Node>, s: int)
    requires Ascending(nodes) && forall x <- Members(nodes) :: Near(x, s)
    ensures forall j :: 0 <= j < |nodes| ==> Near(nodes[j].lo, s) && Near(nodes[j].hi, s)
  {
    forall j | 0 <= j < |nodes|
      ensures Near(nodes[j].lo, s) && Near(nodes[j].hi, s)
    {
      InMembers(nodes, nodes[j].lo);
      InMembers(nodes, nodes[j].hi);
    }
  }

  /** Everything up to the first number goes. */
  lemma AboveFirst(nodes: seq<Node>, s: int)
    requires nodes != [] && Ascending(nodes) && s <= nodes[0].lo
    ensures Above(Members(nodes), s) == if s < nodes[0].lo then Members(nodes) else Members(nodes) - {s}
  {
    FirstIsMin(nodes);
  }

  /** `Lookup` for a number that may lie more than one turn ahead of the head. */
  lemma LookupAhead(d1: seq<int32>, d2: seq<int32>, nx: seq<int>, size: int, head: int, nodes: seq<Node>, s: int,
      loc: int)
    returns (k: nat)
    requires nodes != [] && Embedded(d1, d2, nx, size, head, nodes) && 0 < size
    requires forall j :: 0 <= j < |nodes| ==> Near(nodes[j].lo, s)
    requires nodes[0].lo <= s && loc == (head + (s - nodes[0].lo)) % size
    ensures 0 <= loc < size
    ensures d1[loc] == Wire(s) ==> k < |nodes| && nodes[k].lo == s && nodes[k].pos == loc
    ensures d1[loc] != Wire(s) ==> forall j :: 0 <= j < |nodes| ==> nodes[j].lo != s
    ensures s - nodes[0].lo < size ==> loc == Slot(head, nodes[0].lo, s, size)
  {
    hide Wire, Ascending, Chained;
    k := 0;
    if s - nodes[0].lo < size {
      ModSmall(head + (s - nodes[0].lo), size);
    }
    if j :| 0 <= j < |nodes| && nodes[j].lo == s {
      k := j;
    } else if d1[loc] == Wire(s) {
      assert At(nodes, loc);
      var j :| 0 <= j < |nodes| && nodes[j].pos == loc;
      CmpAgrees(nodes[j].lo, s);
      assert false;
    }
  }

  /** Cutting before, inside or after node `k`, the last that starts at or before `cut`. */
  lemma CutAround(nodes: seq<Node>, k: nat, cut: int)
    requires Ascending(nodes) && Disjoint(nodes) && k < |nodes| && nodes[k].lo <= cut
    requires k + 1 < |nodes| ==> cut < nodes[k + 1].lo
    ensures nodes[k].hi <= cut ==> CutAt(nodes, k + 1, cut)
    ensures forall loc :: cut < nodes[k].hi ==> CutAt(Halved(nodes, k, cut, loc), k + 1, cut)
  {
    forall j | 0 <= j < k
      ensures nodes[j].hi <= cut
    {
    }
    forall j | k < j < |nodes|
      ensures cut < nodes[j].lo
    {
    }
    forall loc | cut < nodes[k].hi
      ensures CutAt(Halved(nodes, k, cut, loc), k + 1, cut)
    {
      var h := Halved(nodes, k, cut, loc);
      forall j | 0 <= j < |h|
        ensures h[j] == if j < k then nodes[j] else if j == k then nodes[k].(hi := cut)
                        else if j == k + 1 then Node(cut + 1, nodes[k].hi, loc) else nodes[j - 1]
      {
      }
    }
  }

  lemma CutTail(nodes: seq<Node>, t: nat, cut: int)
    requires CutAt(nodes, t, cut) && 0 < t
    ensures nodes != [] && CutAt(nodes[1..], t - 1, cut)
    ensures PosOrEnd(nodes[1..], t - 1) == PosOrEnd(nodes, t)
    ensures nodes[0].hi <= cut
  {
  }

  lemma CutBounds(nodes: seq<Node>, t: nat, cut: int)
    requires CutAt(nodes, t, cut)
    ensures t <= |nodes|
  {
  }

  lemma RoomyBounds(nodes: seq<Node>, a: int, b: int, size: int)
    requires Roomy(nodes, a, b, size)
    ensures a <= b < a + size
  {
  }

  lemma FirstEmbedded(d1: seq<int32>, d2: seq<int32>, nx: seq<int>, size: int, head: int, a: int, b: int)
    requires Embedded(d1, d2, nx, size, head, []) && 0 < size && a <= b
    ensures |d2| == size && d2[0] == -1
    ensures
      var nodes := [Node(a, b, 0)];
      Embedded(d1[0 := Wire(a)], d2[0 := EndWire(nodes[0])], nx[0 := -1], size, 0, nodes)
  {
    var none: seq<Node> := [];
    var nodes := [Node(a, b, 0)];
    forall p | 0 <= p < size
      ensures d1[p] == -1 && d2[p] == -1
    {
      assert !At(none, p);
    }
    assert At(nodes, 0) by {
      assert nodes[0].pos == 0;
    }
  }

  /** Only node `k` can hold `s` if it is the last one that starts at or before `s`. */
  lemma OnlyIn(nodes: seq<Node>, k: nat, s: int)
    requires Ascending(nodes) && Disjoint(nodes) && k < |nodes|
    requires nodes[k].lo <= s && (k + 1 < |nodes| ==> s < nodes[k + 1].lo)
    ensures s in Members(nodes) <==> s <= nodes[k].hi
  {
    InMembers(nodes, s);
    forall j | 0 <= j < |nodes| && nodes[j].lo <= s <= nodes[j].hi
      ensures j == k
    {
    }
  }

  /** A number beyond every interval is not a member. */
  lemma Beyond(nodes: seq<Node>, size: int, s: int)
    requires nodes != [] && Ascending(nodes) && Spans(nodes, size) && nodes[0].lo + size <= s
    ensures s !in Members(nodes)
    ensures forall j :: 0 <= j < |nodes| ==> nodes[j].hi < s
  {
    InMembers(nodes, s);
  }

  /** Shortening node `k` by its last number. */
  lemma ShrinkMembers(nodes: seq<Node>, k: nat)
    requires k < |nodes| && Ascending(nodes) && Disjoint(nodes) && nodes[k].lo < nodes[k].hi
    ensures Members(SetHi(nodes, k, nodes[k].hi - 1)) == Members(nodes) - {nodes[k].hi}
    ensures Total(SetHi(nodes, k, nodes[k].hi - 1)) == Total(nodes) - 1
  {
    hide Members, Total, Ascending, Disjoint;
    var hi := nodes[k].hi;
    var nodes' := SetHi(nodes, k, hi - 1);
    MembersAround(nodes, k);
    MembersAround(nodes', k);
    assert nodes'[..k] == nodes[..k] && nodes'[k + 1..] == nodes[k + 1..];
    NotAround(nodes, k, hi);
    assert Range(nodes[k].lo, hi - 1) == Range(nodes[k].lo, hi) - {hi};
    TakeOut(Members(nodes[..k]), Range(nodes[k].lo, hi), Members(nodes[k + 1..]), hi);
  }

  lemma TakeOut(before: set<int>, mid: set<int>, after: set<int>, x: int)
    requires x !in before && x !in after
    ensures before + (mid - {x}) + after == (before + mid + after) - {x}
  {
  }

  lemma ShrinkOrder(nodes: seq<Node>, k: nat, size: int)
    requires k < |nodes| && Ascending(nodes) && Disjoint(nodes) && Spans(nodes, size) && nodes[k].lo < nodes[k].hi
    ensures
      var nodes' := SetHi(nodes, k, nodes[k].hi - 1);
      Ascending(nodes') && Disjoint(nodes') && Spans(nodes', size)
  {
  }

  /** [3, 7] becomes [], [4, 7]: the interval in slot `loc` loses its first number and moves to slot `i`. */
  method MoveStart(data1: array<int32>, data2: array<int32>, loc: int, i: int, ghost n: Node)
    requires data1 != data2 && data1.Length == data2.Length
    requires 0 <= loc < data1.Length && 0 <= i < data1.Length && i != loc
    requires n.lo < n.hi < n.lo + TH && data1[loc] == Wire(n.lo) && data2[loc] == Wire(n.hi) && data2[i] == -1
    modifies data1, data2
    ensures data1[..] == old(data1[..])[i := Wire(n.lo + 1)][loc := -1]
    ensures data2[..] == old(data2[..])[i := EndWire(Node(n.lo + 1, n.hi, i))][loc := -1]
  {
    IncAgrees(n.lo);
    CmpAgrees(n.hi, n.lo + 1);
    hide Wire;
    data1[i] := IncSeq(data1[loc]);
    if SeqCmp(data2[loc], data1[i]) > 0 {
      data2[i] := data2[loc];
    }
    data1[loc] := -1;
    data2[loc] := -1;
  }
}
