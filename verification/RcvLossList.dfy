/** The receiver's loss list: CRcvLossList, doubly linked on its circular arrays. */
module RcvLossList {
  import opened Arith
  import opened Circular
  import opened SeqNo
  import opened IntSets
  import opened LossCoding
  import opened LossNodes

  function PrevPos(nodes: seq<Node>, k: nat): int
    requires k < |nodes|
  {
    if k > 0 then nodes[k - 1].pos else -1
  }

  /** The prior pointers mirror the next pointers. */
  ghost predicate Back(pr: seq<int>, size: int, nodes: seq<Node>) {
    && |pr| == size
    && (forall k :: 0 <= k < |nodes| ==> 0 <= nodes[k].pos < size)
    && (forall k :: 0 <= k < |nodes| ==> pr[nodes[k].pos] == PrevPos(nodes, k))
  }

  ghost predicate TailOf(tail: int, nodes: seq<Node>) {
    nodes != [] ==> tail == nodes[|nodes| - 1].pos
  }

  ghost predicate Apart(nodes: seq<Node>) {
    forall i, j :: 0 <= i < |nodes| && 0 <= j < |nodes| && i != j ==> nodes[i].pos != nodes[j].pos
  }

  lemma BackAt(pr: seq<int>, size: int, nodes: seq<Node>, k: nat)
    requires Back(pr, size, nodes) && k < |nodes|
    ensures |pr| == size && 0 <= nodes[k].pos < size && pr[nodes[k].pos] == PrevPos(nodes, k)
  {
  }

  lemma BackRemove(pr: seq<int>, size: int, nodes: seq<Node>, k: nat)
    requires Back(pr, size, nodes) && Apart(nodes) && k < |nodes|
    ensures k + 1 < |nodes| ==> 0 <= nodes[k + 1].pos < |pr|
    ensures Back(if k + 1 < |nodes| then pr[nodes[k + 1].pos := PrevPos(nodes, k)] else pr, size, RemoveAt(nodes, k))
  {
    var nodes' := RemoveAt(nodes, k);
    var pr' := if k + 1 < |nodes| then pr[nodes[k + 1].pos := PrevPos(nodes, k)] else pr;
    forall j | 0 <= j < |nodes'|
      ensures 0 <= nodes'[j].pos < size && pr'[nodes'[j].pos] == PrevPos(nodes', j)
    {
      if j < k {
        assert nodes'[j] == nodes[j];
        assert j > 0 ==> nodes'[j - 1] == nodes[j - 1];
      } else {
        assert nodes'[j] == nodes[j + 1];
        assert j > 0 ==> nodes'[j - 1] == nodes[if j == k then j - 1 else j];
      }
    }
  }

  lemma BackShift(pr: seq<int>, size: int, nodes: seq<Node>, k: nat, loc: int)
    requires Back(pr, size, nodes) && Apart(nodes) && k < |nodes| && 0 <= loc < size
    requires forall j :: 0 <= j < |nodes| ==> nodes[j].pos != loc
    ensures 0 <= nodes[k].pos < |pr| && (k + 1 < |nodes| ==> 0 <= nodes[k + 1].pos < |pr|)
    ensures
      var pr1 := pr[loc := pr[nodes[k].pos]];
      Back(if k + 1 < |nodes| then pr1[nodes[k + 1].pos := loc] else pr1, size, Shifted(nodes, k, loc))
  {
    var nodes' := Shifted(nodes, k, loc);
    var pr1 := pr[loc := pr[nodes[k].pos]];
    var pr' := if k + 1 < |nodes| then pr1[nodes[k + 1].pos := loc] else pr1;
    forall j | 0 <= j < |nodes'|
      ensures 0 <= nodes'[j].pos < size && pr'[nodes'[j].pos] == PrevPos(nodes', j)
    {
      assert j != k ==> nodes'[j] == nodes[j];
      assert j > 0 && j - 1 != k ==> nodes'[j - 1] == nodes[j - 1];
    }
  }

  lemma BackInsert(pr: seq<int>, size: int, nodes: seq<Node>, k: nat, n: Node)
    requires Back(pr, size, nodes) && Apart(nodes) && 0 < k <= |nodes| && 0 <= n.pos < size
    requires forall j :: 0 <= j < |nodes| ==> nodes[j].pos != n.pos
    ensures k < |nodes| ==> 0 <= nodes[k].pos < |pr|
    ensures
      var pr1 := pr[n.pos := nodes[k - 1].pos];
      Back(if k < |nodes| then pr1[nodes[k].pos := n.pos] else pr1, size, InsertAt(nodes, k, n))
  {
    var nodes' := InsertAt(nodes, k, n);
    var pr1 := pr[n.pos := nodes[k - 1].pos];
    var pr' := if k < |nodes| then pr1[nodes[k].pos := n.pos] else pr1;
    forall j | 0 <= j < |nodes'|
      ensures 0 <= nodes'[j].pos < size && pr'[nodes'[j].pos] == PrevPos(nodes', j)
    {
      assert nodes'[j] == if j < k then nodes[j] else if j == k then n else nodes[j - 1];
      assert j > 0 ==> nodes'[j - 1] == if j - 1 < k then nodes[j - 1] else if j - 1 == k then n else nodes[j - 2];
    }
  }

  lemma BackSetHi(pr: seq<int>, size: int, nodes: seq<Node>, k: nat, hi: int)
    requires Back(pr, size, nodes) && k < |nodes|
    ensures Back(pr, size, SetHi(nodes, k, hi))
  {
    var nodes' := SetHi(nodes, k, hi);
    forall j | 0 <= j < |nodes'|
      ensures 0 <= nodes'[j].pos < size && pr[nodes'[j].pos] == PrevPos(nodes', j)
    {
      assert nodes'[j].pos == nodes[j].pos && PrevPos(nodes', j) == PrevPos(nodes, j);
    }
  }

  lemma IsApart(size: int, head: int, nodes: seq<Node>)
    requires Ascending(nodes) && Placed(size, head, nodes)
    ensures Apart(nodes)
  {
    PosDistinct(size, head, nodes);
  }

  /** The last node that starts at or before `x`. */
  lemma LastBefore(nodes: seq<Node>, x: int) returns (k: nat)
    requires nodes != [] && Ascending(nodes) && nodes[0].lo <= x
    ensures k < |nodes| && nodes[k].lo <= x && (k + 1 < |nodes| ==> x < nodes[k + 1].lo)
    ensures forall j :: 0 <= j < |nodes| && nodes[j].lo == x ==> j == k
  {
    k := 0;
    while k + 1 < |nodes| && nodes[k + 1].lo <= x
      invariant k < |nodes| && nodes[k].lo <= x
    {
      k := k + 1;
    }
  }

  class RcvLossList {
    const size: int
    const data1: array<int32>
    const data2: array<int32>
    const next: array<int>
    const prior: array<int>
    var head: int
    var tail: int
    var length: int

    ghost var nodes: seq<Node>

    ghost predicate Valid()
      reads this, data1, data2, next, prior
    {
      && 0 < size <= TH
      && data1.Length == data2.Length == next.Length == prior.Length == size
      && data1 != data2 && next != prior
      && Embedded(data1[..], data2[..], next[..], size, head, nodes) && (nodes == [] ==> head == -1)
      && Back(prior[..], size, nodes) && TailOf(tail, nodes)
      && Disjoint(nodes) && Spans(nodes, size)
      && length == Total(nodes)
    }

    /** The missing sequence numbers, as packet indices. */
    ghost function Contents(): set<int>
      reads this
    {
      Members(nodes)
    }

    constructor (size: int)
      requires 0 < size <= TH
      ensures Valid() && Contents() == {} && this.size == size
      ensures fresh(data1) && fresh(data2) && fresh(next) && fresh(prior)
    {
      this.size := size;
      data1 := new int32[size];
      data2 := new int32[size];
      next := new int[size];
      prior := new int[size];
      head, tail, length := -1, -1, 0;
      nodes := [];
      new;
      for i := 0 to size
        invariant forall p :: 0 <= p < i ==> data1[p] == -1 && data2[p] == -1
        invariant head == -1 && length == 0 && nodes == []
      {
        data1[i], data2[i] := -1, -1;
      }
    }

    method GetLossLength() returns (n: int)
      requires Valid()
      ensures n == |Contents()|
    {
      TotalIsSize(nodes);
      n := length;
    }

    /** The smallest missing number, or -1. */
    method GetFirstLostSeq() returns (seqno: int32)
      requires Valid()
      ensures Contents() == {} ==> seqno == -1
      ensures Contents() != {} ==> seqno == Wire(Min(Contents()))
    {
      TotalIsSize(nodes);
      if length == 0 {
        return -1;
      }
      FirstIsMin(nodes);
      NodeAt(data1[..], data2[..], next[..], size, head, nodes, 0);
      return data1[head];
    }

    method InsertFirst(seqno1: int32, seqno2: int32, ghost a: int, ghost b: int)
      requires Valid() && nodes == [] && a <= b < a + size && seqno1 == Wire(a) && seqno2 == Wire(b)
      modifies this, data1, data2, next, prior
      ensures Valid() && Contents() == Range(a, b)
    {
      ghost var d1, d2, nx := data1[..], data2[..], next[..];
      CmpAgrees(a, b);
      LenAgrees(a, b);
      FirstEmbedded(d1, d2, nx, size, head, a, b);
      head := 0;
      tail := 0;
      data1[head] := seqno1;
      if seqno2 != seqno1 {
        data2[head] := seqno2;
      }
      next[head] := -1;
      prior[head] := -1;
      length := length + SeqLen(seqno1, seqno2) as int;
      nodes := [Node(a, b, 0)];
      assert data1[..] == d1[0 := Wire(a)] && data2[..] == d2[0 := EndWire(nodes[0])] && next[..] == nx[0 := -1];
      MembersOne(nodes[0]);
    }

    /** The tail [2, 5] becomes [2, 7] when [6, 7] is inserted. */
    method ExtendTail(seqno1: int32, seqno2: int32, ghost a: int, ghost b: int)
      requires Valid() && nodes != [] && Roomy(nodes, a, b, size) && seqno1 == Wire(a) && seqno2 == Wire(b)
      requires nodes[|nodes| - 1].hi + 1 == a
      modifies this, data2
      ensures Valid() && Contents() == old(Contents()) + Range(a, b)
    {
      hide Stored, Placed, Chained, Ascending, DisjointBut, Disjoint, Spans, At, Members, Total, Wire, Roomy, Back;
      ghost var d1, d2, nx, ns, k := data1[..], data2[..], next[..], nodes, |nodes| - 1;
      NodeAt(d1, d2, nx, size, head, ns, k);
      RoomyBounds(ns, a, b, size);
      LenAgrees(a, b);
      SetEnd(d1, d2, nx, size, head, ns, k, b);
      BackSetHi(prior[..], size, ns, k, b);
      SetHiMembers(ns, k, a, b);
      SetHiOrder(ns, k, a, b, size);
      var loc := tail;
      data2[loc] := seqno2;
      length := length + SeqLen(seqno1, seqno2) as int;
      nodes := SetHi(ns, k, b);
      assert data2[..] == d2[loc := EndWire(ns[k].(hi := b))];
      GapDisjoint(nodes, k);
    }

    /** A new node behind the tail. */
    method Append(loc: int, seqno1: int32, seqno2: int32, ghost a: int, ghost b: int)
      requires Valid() && nodes != [] && Roomy(nodes, a, b, size) && seqno1 == Wire(a) && seqno2 == Wire(b)
      requires nodes[|nodes| - 1].hi < a && loc == Slot(head, nodes[0].lo, a, size)
      modifies this, data1, data2, next, prior
      ensures Valid() && Contents() == old(Contents()) + Range(a, b)
    {
      hide Stored, Placed, Chained, Ascending, DisjointBut, Disjoint, Spans, At, Members, Total, Wire, Fits, Roomy,
        Back, Apart;
      ghost var d1, d2, nx, pr, ns, k, n := data1[..], data2[..], next[..], prior[..], nodes, |nodes|, Node(a, b, loc);
      NodeAt(d1, d2, nx, size, head, ns, k - 1);
      RoomyBounds(ns, a, b, size);
      CmpAgrees(a, b);
      LenAgrees(a, b);
      FitsAfter(ns, k - 1, a, b, size);
      InsertNode(d1, d2, nx, size, head, ns, k, n);
      InsertMembers(ns, k, n);
      InsertOrder(ns, k, n, size);
      IsApart(size, head, ns);
      BackInsert(pr, size, ns, k, n);
      data1[loc] := seqno1;
      if seqno2 != seqno1 {
        data2[loc] := seqno2;
      }
      next[tail] := loc;
      prior[loc] := tail;
      next[loc] := -1;
      tail := loc;
      length := length + SeqLen(seqno1, seqno2) as int;
      nodes := InsertAt(ns, k, n);
      assert data1[..] == d1[loc := Wire(a)] && data2[..] == d2[loc := EndWire(n)];
      assert next[..] == LinkNew(nx, ns, k, loc);
      assert prior[..] == pr[loc := ns[k - 1].pos];
      assert nodes[k] == n && |nodes| == k + 1;
      GapDisjoint(nodes, k);
    }

    /** Add `a..b`, which must come after everything in the list. */
    method Insert(seqno1: int32, seqno2: int32, ghost a: int, ghost b: int)
      requires Valid() && seqno1 == Wire(a) && seqno2 == Wire(b)
      requires a <= b < a + size
      requires forall x <- Contents() :: x < a && b - x < size
      modifies this, data1, data2, next, prior
      ensures Valid()
      ensures Contents() == old(Contents()) + Range(a, b)
    {
      hide Stored, Placed, Chained, Ascending, DisjointBut, Disjoint, Spans, At, Members, Total, Wire, Roomy, Back;
      TotalIsSize(nodes);
      if length == 0 {
        InsertFirst(seqno1, seqno2, a, b);
        return;
      }
      assert Contents() == Members(nodes);
      RoomyFromMembers(nodes, a, b, size);
      ghost var k := |nodes| - 1;
      NodeAt(data1[..], data2[..], next[..], size, head, nodes, 0);
      NodeAt(data1[..], data2[..], next[..], size, head, nodes, k);
      InMembers(nodes, nodes[k].hi);
      RoomyNear(nodes, a, b, size, 0);
      RoomyNear(nodes, a, b, size, k);
      OffAgrees(nodes[0].lo, a);
      var offset := SeqOff(data1[head], seqno1) as int;
      var loc := (head + offset) % size;
      InMembers(nodes, nodes[0].lo);
      ModSmall(head + offset, size);
      IncAgrees(nodes[k].hi);
      CmpAgrees(nodes[k].hi + 1, a);
      if data2[tail] != -1 && IncSeq(data2[tail]) == seqno1 {
        ExtendTail(seqno1, seqno2, a, b);
      } else {
        Append(loc, seqno1, seqno2, a, b);
      }
    }

    /** The only number of node `k`, in slot `loc`, goes. */
    method DropNode(loc: int, ghost k: nat)
      requires Valid() && k < |nodes| && nodes[k].pos == loc && nodes[k].lo == nodes[k].hi
      modifies this, data1, next, prior
      ensures Valid() && Contents() == old(Contents()) - {old(nodes)[k].lo}
    {
      hide Stored, Placed, Chained, Ascending, DisjointBut, Disjoint, Spans, At, Members, Total, Wire, Back, Apart;
      ghost var d1, d2, nx, pr, ns := data1[..], data2[..], next[..], prior[..], nodes;
      NodeAt(d1, d2, nx, size, head, ns, k);
      if k > 0 {
        NodeAt(d1, d2, nx, size, head, ns, k - 1);
      }
      RemoveNode(d1, d2, nx, size, head, ns, k);
      RemoveMembers(ns, k);
      RemoveKeepsOrder(ns, size, k);
      IsApart(size, head, ns);
      BackAt(pr, size, ns, k);
      BackRemove(pr, size, ns, k);
      FirstOnly(size, head, ns, k);
      if head == loc {
        head := next[head];
        if head != -1 {
          prior[head] := -1;
        }
      } else {
        next[prior[loc]] := next[loc];
        if next[loc] != -1 {
          prior[next[loc]] := prior[loc];
        } else {
          tail := prior[loc];
        }
      }
      data1[loc] := -1;
      length := length - 1;
      nodes := RemoveAt(ns, k);
      assert data1[..] == d1[loc := -1] && data2[..] == d2[loc := -1];
      assert next[..] == LinkPast(nx, ns, k);
      assert prior[..] == if k + 1 < |ns| then pr[ns[k + 1].pos := PrevPos(ns, k)] else pr;
    }

    /** The first number of node `k`, in slot `loc`, goes; the rest moves one slot on. */
    method ShiftNode(loc: int, ghost k: nat)
      requires Valid() && k < |nodes| && nodes[k].pos == loc && nodes[k].lo < nodes[k].hi
      modifies this, data1, data2, next, prior
      ensures Valid() && Contents() == old(Contents()) - {old(nodes)[k].lo}
    {
      hide Stored, Placed, Chained, Ascending, DisjointBut, Disjoint, Spans, At, Members, Total, Wire, Back, Apart;
      ghost var d1, d2, nx, pr, ns := data1[..], data2[..], next[..], prior[..], nodes;
      NodeAt(d1, d2, nx, size, head, ns, 0);
      NodeAt(d1, d2, nx, size, head, ns, k);
      SpanNear(ns, size, k);
      PosIs(size, head, ns, k);
      NextSlot(head, ns[0].lo, ns[k].lo, size, loc);
      var i := (loc + 1) % size;
      Shift(d1, d2, nx, size, head, ns, k, i);
      ShiftSlot(d1, d2, size, head, ns, k);
      ShiftMembers(ns, k, i);
      IsApart(size, head, ns);
      BackAt(pr, size, ns, k);
      BackShift(pr, size, ns, k, i);
      FirstOnly(size, head, ns, k);
      MoveStart(data1, data2, loc, i, ns[k]);
      MoveLinks(loc, i, k);
      length := length - 1;
      nodes := Shifted(ns, k, i);
    }

    /** Hand the links of the node in slot `loc` over to slot `i`. */
    method MoveLinks(loc: int, i: int, ghost k: nat)
      requires next.Length == prior.Length == size && next != prior && k < |nodes| && nodes[k].pos == loc
      requires 0 <= loc < size && 0 <= i < size && i != loc
      requires next[loc] == NextPos(nodes, k) && prior[loc] == PrevPos(nodes, k)
      requires head == loc <==> k == 0
      requires tail == loc <==> k == |nodes| - 1
      requires k > 0 ==> 0 <= nodes[k - 1].pos < size && nodes[k - 1].pos != i
      requires k + 1 < |nodes| ==> 0 <= nodes[k + 1].pos < size && nodes[k + 1].pos != i
      modifies this`head, this`tail, next, prior
      ensures next[..] == LinkShifted(old(next[..]), nodes, k, i)
      ensures
        var pr1 := old(prior[..])[i := old(prior[loc])];
        prior[..] == if k + 1 < |nodes| then pr1[nodes[k + 1].pos := i] else pr1
      ensures head == if k == 0 then i else old(head)
      ensures tail == if k == |nodes| - 1 then i else old(tail)
    {
      next[i] := next[loc];
      prior[i] := prior[loc];
      if head == loc {
        head := i;
      } else {
        next[prior[i]] := i;
      }
      if tail == loc {
        tail := i;
      } else {
        prior[next[i]] := i;
      }
    }

    /** The last number of node `k`, in slot `i`, goes. */
    method ShrinkNode(i: int, seqno: int32, ghost k: nat)
      requires Valid() && k < |nodes| && nodes[k].pos == i && nodes[k].lo < nodes[k].hi && seqno == Wire(nodes[k].hi)
      modifies this, data2
      ensures Valid() && Contents() == old(Contents()) - {old(nodes)[k].hi}
    {
      hide Stored, Placed, Chained, Ascending, DisjointBut, Disjoint, Spans, At, Members, Total, Wire, Back;
      ghost var d1, d2, nx, ns := data1[..], data2[..], next[..], nodes;
      NodeAt(d1, d2, nx, size, head, ns, k);
      SpanNear(ns, size, k);
      SetEnd(d1, d2, nx, size, head, ns, k, ns[k].hi - 1);
      BackSetHi(prior[..], size, ns, k, ns[k].hi - 1);
      ShrinkMembers(ns, k);
      ShrinkOrder(ns, k, size);
      IncAgrees(ns[k].lo);
      DecAgrees(ns[k].hi);
      CmpAgrees(ns[k].hi, ns[k].lo + 1);
      if seqno == IncSeq(data1[i]) {
        data2[i] := -1;
      } else {
        data2[i] := DecSeq(seqno);
      }
      length := length - 1;
      nodes := SetHi(ns, k, ns[k].hi - 1);
      assert data2[..] == d2[i := EndWire(nodes[k])];
    }

    /** A number inside node `k`, in slot `i`, goes: the node falls in two, the second in slot `loc`. */
    method SplitNode(i: int, loc: int, seqno: int32, ghost k: nat, ghost s: int)
      requires Valid() && k < |nodes| && nodes[k].pos == i && nodes[k].lo < s < nodes[k].hi
      requires seqno == Wire(s) && loc == Slot(head, nodes[0].lo, s + 1, size)
      modifies this, data1, data2, next, prior
      ensures Valid() && Contents() == old(Contents()) - {s}
    {
      hide Stored, Placed, Chained, Ascending, DisjointBut, Disjoint, Spans, At, Members, Total, Wire, Back, Apart;
      ghost var d1, d2, nx, pr, ns := data1[..], data2[..], next[..], prior[..], nodes;
      NodeAt(d1, d2, nx, size, head, ns, k);
      SpanNear(ns, size, k);
      Fallen(d1, d2, nx, pr, size, head, tail, ns, k, s, loc);
      FallenMembers(ns, k, s, loc, size);
      IncAgrees(s);
      IncAgrees(ns[k].lo);
      DecAgrees(s);
      CmpAgrees(ns[k].hi, s + 1);
      CmpAgrees(s, ns[k].lo + 1);
      data1[loc] := IncSeq(seqno);
      if SeqCmp(data2[i], data1[loc]) > 0 {
        data2[loc] := data2[i];
      }
      if seqno == IncSeq(data1[i]) {
        data2[i] := -1;
      } else {
        data2[i] := DecSeq(seqno);
      }
      LinkSecond(i, loc, k);
      length := length - 1;
      nodes := Gapped(ns, k, s, loc);
      assert data1[..] == d1[loc := Wire(s + 1)];
      assert data2[..] == d2[i := EndWire(ns[k].(hi := s - 1))][loc := EndWire(Node(s + 1, ns[k].hi, loc))];
    }

    /** Link slot `loc` behind the node in slot `i`. */
    method LinkSecond(i: int, loc: int, ghost k: nat)
      requires next.Length == prior.Length == size && next != prior && k < |nodes| && nodes[k].pos == i
      requires 0 <= loc < size && 0 <= i < size && i != loc && next[i] == NextPos(nodes, k)
      requires tail == i <==> k == |nodes| - 1
      requires k + 1 < |nodes| ==> 0 <= nodes[k + 1].pos < size && nodes[k + 1].pos != loc
      modifies this`tail, next, prior
      ensures next[..] == old(next[..])[loc := old(next[i])][i := loc]
      ensures
        prior[..]
        == if k + 1 < |nodes| then old(prior[..])[loc := i][nodes[k + 1].pos := loc] else old(prior[..])[loc := i]
      ensures tail == if k == |nodes| - 1 then loc else old(tail)
    {
      next[loc] := next[i];
      next[i] := loc;
      prior[loc] := i;
      if tail == i {
        tail := loc;
      } else {
        prior[next[loc]] := loc;
      }
    }

    /** Walk back from slot `start`, where index `x` would sit, to the nearest node. */
    method SearchBack(start: int, ghost x: int) returns (i: int, ghost k: nat)
      requires Valid() && nodes != [] && nodes[0].lo <= x < nodes[0].lo + size
      requires start == Slot(head, nodes[0].lo, x, size)
      ensures k < |nodes| && nodes[k].pos == i && nodes[k].lo <= x
      ensures k + 1 < |nodes| ==> x < nodes[k + 1].lo
    {
      hide Stored, Chained, Disjoint, Spans, At, Members, Total, Wire, Back;
      ghost var y := x;
      k := LastBefore(nodes, x);
      NodeAt(data1[..], data2[..], next[..], size, head, nodes, k);
      PosIs(size, head, nodes, k);
      SlotInRange(head, nodes[0].lo, x, size);
      i := start;
      StopsAt(data1[..], data2[..], size, head, nodes, k, y);
      while data1[i] == -1
        invariant 0 <= i < size && nodes[k].lo <= y <= x && i == Slot(head, nodes[0].lo, y, size)
        invariant data1[i] != -1 <==> y == nodes[k].lo
        decreases y - nodes[k].lo
      {
        PrevSlot(head, nodes[0].lo, y, size);
        i, y := (i - 1 + size) % size, y - 1;
        SlotInRange(head, nodes[0].lo, y, size);
        StopsAt(data1[..], data2[..], size, head, nodes, k, y);
      }
    }

    /** Take one number off the list and say whether it was there. */
    method Remove(seqno: int32, ghost s: int) returns (found: bool)
      requires Valid() && seqno == Wire(s)
      requires forall x <- Contents() :: Near(x, s)
      modifies this, data1, data2, next, prior
      ensures Valid()
      ensures found <==> s in old(Contents())
      ensures Contents() == old(Contents()) - {s}
    {
      hide Stored, Placed, Chained, Ascending, DisjointBut, Disjoint, Spans, At, Members, Total, Wire, Back;
      TotalIsSize(nodes);
      if length == 0 {
        return false;
      }
      assert Contents() == Members(nodes);
      NearMembers(nodes, s);
      FirstIsMin(nodes);
      ghost var d1, d2, nx := data1[..], data2[..], next[..];
      NodeAt(d1, d2, nx, size, head, nodes, 0);
      OffAgrees(nodes[0].lo, s);
      var offset := SeqOff(data1[head], seqno) as int;
      if offset < 0 {
        return false;
      }
      var loc := (head + offset) % size;
      ghost var k := LookupAhead(d1, d2, nx, size, head, nodes, s, loc);
      if seqno == data1[loc] {
        InMembers(nodes, s);
        NodeAt(d1, d2, nx, size, head, nodes, k);
        if data2[loc] == -1 {
          DropNode(loc, k);
        } else {
          ShiftNode(loc, k);
        }
        return true;
      }
      found := RemoveInside(loc, seqno, s);
    }

    /** No node starts with `s`; look for it inside the nearest node before its slot. */
    method RemoveInside(loc: int, seqno: int32, ghost s: int) returns (found: bool)
      requires Valid() && nodes != [] && seqno == Wire(s) && nodes[0].lo < s
      requires forall j :: 0 <= j < |nodes| ==> Near(nodes[j].lo, s) && Near(nodes[j].hi, s) && nodes[j].lo != s
      requires 0 <= loc < size && (s - nodes[0].lo < size ==> loc == Slot(head, nodes[0].lo, s, size))
      modifies this, data1, data2, next, prior
      ensures Valid()
      ensures found <==> s in old(Contents())
      ensures Contents() == old(Contents()) - {s}
    {
      hide Stored, Placed, Chained, Ascending, DisjointBut, Disjoint, Spans, At, Members, Total, Wire, Back;
      ghost var d1, d2, nx := data1[..], data2[..], next[..];
      NodeAt(d1, d2, nx, size, head, nodes, 0);
      ModSmall(loc - 1 + size, size);
      ghost var x := s - 1;
      if s - nodes[0].lo < size {
        PrevSlot(head, nodes[0].lo, s, size);
      } else {
        x := SlotOnto(head, nodes[0].lo, (loc - 1 + size) % size, size);
        Beyond(nodes, size, s);
      }
      var i; ghost var k;
      i, k := SearchBack((loc - 1 + size) % size, x);
      NodeAt(d1, d2, nx, size, head, nodes, k);
      SpanNear(nodes, size, k);
      CmpAgrees(s, nodes[k].hi);
      if s - nodes[0].lo < size {
        OnlyIn(nodes, k, s);
      }
      if data2[i] == -1 || SeqCmp(seqno, data2[i]) > 0 {
        return false;
      }
      if seqno == data2[i] {
        ShrinkNode(i, seqno, k);
      } else {
        NextSlot(head, nodes[0].lo, s, size, loc);
        SplitNode(i, (loc + 1) % size, seqno, k, s);
      }
      return true;
    }

    /** Is any number of `a..b` in the list? */
    method Find(seqno1: int32, seqno2: int32, ghost a: int, ghost b: int) returns (found: bool)
      requires Valid() && seqno1 == Wire(a) && seqno2 == Wire(b) && a <= b
      requires forall x <- Contents() :: Near(x, a) && Near(x, b)
      ensures found <==> exists x :: x in Contents() && a <= x <= b
    {
      hide Stored, Placed, Chained, Disjoint, Spans, At, Total, Wire, Back, SeqCmp, EndWire, Ascending, Members, Near;
      TotalIsSize(nodes);
      if length == 0 {
        return false;
      }
      assert Contents() == Members(nodes);
      NearMembers(nodes, a);
      NearMembers(nodes, b);
      NodeAt(data1[..], data2[..], next[..], size, head, nodes, 0);
      var p := head;
      ghost var k := 0;
      while p != -1
        invariant 0 <= k <= |nodes| && p == PosOrEnd(nodes, k) && (k < |nodes| ==> p != -1)
        invariant forall j :: 0 <= j < k ==> nodes[j].hi < a || b < nodes[j].lo
        decreases |nodes| - k
      {
        NodeAt(data1[..], data2[..], next[..], size, head, nodes, k);
        HitTest(nodes[k], a, b);
        if SeqCmp(data1[p], seqno1) == 0
           || (SeqCmp(data1[p], seqno1) > 0 && SeqCmp(data1[p], seqno2) <= 0)
           || (SeqCmp(data1[p], seqno1) < 0 && data2[p] != -1 && SeqCmp(data2[p], seqno1) >= 0) {
          ghost var x := HitMember(nodes, k, a, b);
          assert x in Contents();
          return true;
        }
        p, k := next[p], k + 1;
      }
      NoOverlap(nodes, a, b);
      return false;
    }

    /** The missing numbers as stretches, in the order of the list. */
    ghost function Losses(): seq<Loss>
      reads this
    {
      LossesOf(nodes)
    }

    /** Write the loss list into an array that has room for `limit` entries, as far as it fits;
        `k` of its stretches have been written. */
    method GetLossArray(report: array<int32>, limit: nat) returns (len: nat, ghost k: nat)
      requires Valid() && limit <= report.Length && report != data1 && report != data2
      modifies report
      ensures Valid() && len <= limit && k <= |Losses()|
      ensures report[..len] == Encode(Losses()[..k]) && report[len..] == old(report[len..])
      ensures k == |Losses()| || limit <= len + 1
      ensures k > 0 ==> |Encode(Losses()[..k - 1])| + 1 < limit
    {
      hide Stored, Placed, Chained, Disjoint, Spans, At, Total, Wire, Back, Ascending, Members, Encode, EncodeOne,
        LossesOf;
      len, k := 0, 0;
      LossesSize(nodes);
      NoneEncoded(report[..0], Losses());
      FirstPos(data1[..], data2[..], next[..], size, head, nodes);
      var i := head;
      while len < limit - 1 && i != -1
        invariant Valid() && 0 <= len <= limit && k <= |nodes| && i == PosOrEnd(nodes, k) && (k < |nodes| ==> i != -1)
        invariant report[..len] == Encode(Losses()[..k]) && report[len..] == old(report[len..])
        invariant k > 0 ==> |Encode(Losses()[..k - 1])| + 1 < limit
        decreases |nodes| - k
      {
        NodeAt(data1[..], data2[..], next[..], size, head, nodes, k);
        EncodeTakeNext(Losses(), k);
        LossAt(nodes, k);
        len := WriteOne(report, len, data1[i], data2[i], Loss(nodes[k].lo, nodes[k].hi));
        i := next[i];
        k := k + 1;
      }
    }
  }

  function LossesOf(nodes: seq<Node>): seq<Loss> {
    if nodes == [] then [] else [Loss(nodes[0].lo, nodes[0].hi)] + LossesOf(nodes[1..])
  }

  lemma {:induction false} LossesSize(nodes: seq<Node>)
    ensures |LossesOf(nodes)| == |nodes|
  {
    if nodes != [] {
      LossesSize(nodes[1..]);
    }
  }

  lemma {:induction false} LossAt(nodes: seq<Node>, k: nat)
    requires k < |nodes|
    ensures k < |LossesOf(nodes)| && LossesOf(nodes)[k] == Loss(nodes[k].lo, nodes[k].hi)
  {
    LossesSize(nodes);
    if k > 0 {
      LossAt(nodes[1..], k - 1);
    }
  }

  /** Written out completely, the list reports exactly its members. */
  lemma {:induction false} AllReported(nodes: seq<Node>)
    ensures Reported(LossesOf(nodes)) == Members(nodes)
  {
    if nodes != [] {
      AllReported(nodes[1..]);
      assert LossesOf(nodes)[1..] == LossesOf(nodes[1..]);
    }
  }

  lemma NoneEncoded(none: seq<int32>, ls: seq<Loss>)
    requires none == []
    ensures none == Encode(ls[..0])
  {
  }

  lemma FirstPos(d1: seq<int32>, d2: seq<int32>, nx: seq<int>, size: int, head: int, nodes: seq<Node>)
    requires Embedded(d1, d2, nx, size, head, nodes) && (nodes == [] ==> head == -1)
    ensures head == PosOrEnd(nodes, 0) && (nodes != [] ==> head != -1)
  {
  }

  /** One stretch: its first number, with the top bit set if a last number follows. */
  method WriteOne(report: array<int32>, at: nat, first: int32, last: int32, ghost l: Loss) returns (len: nat)
    requires at + 1 < report.Length && first == Wire(l.lo) && last == if l.lo == l.hi then -1 else Wire(l.hi)
    modifies report
    ensures at < len <= at + 2 && report[len..] == old(report[len..])
    ensures report[..len] == old(report[..at]) + EncodeOne(l)
  {
    hide Wire;
    len := at;
    report[len] := first;
    if last != -1 {
      report[len] := Mark(report[len]);
      len := len + 1;
      report[len] := last;
    }
    len := len + 1;
  }

  lemma HitMember(nodes: seq<Node>, k: nat, a: int, b: int) returns (x: int)
    requires k < |nodes| && nodes[k].lo <= nodes[k].hi && a <= b && nodes[k].lo <= b && a <= nodes[k].hi
    ensures x in Members(nodes) && a <= x <= b
  {
    x := if nodes[k].lo < a then a else nodes[k].lo;
    InMembers(nodes, x);
  }

  lemma NoOverlap(nodes: seq<Node>, a: int, b: int)
    requires forall j :: 0 <= j < |nodes| ==> nodes[j].hi < a || b < nodes[j].lo
    ensures forall x <- Members(nodes) :: !(a <= x <= b)
  {
    forall x | x in Members(nodes)
      ensures !(a <= x <= b)
    {
      InMembers(nodes, x);
    }
  }

  /** The test of the search loop asks whether a node meets the stretch `a..b`. */
  lemma HitTest(n: Node, a: int, b: int)
    requires n.lo <= n.hi && a <= b
    requires Near(n.lo, a) && Near(n.lo, b) && Near(n.hi, a)
    ensures
      || SeqCmp(Wire(n.lo), Wire(a)) == 0
      || (SeqCmp(Wire(n.lo), Wire(a)) > 0 && SeqCmp(Wire(n.lo), Wire(b)) <= 0)
      || (SeqCmp(Wire(n.lo), Wire(a)) < 0 && EndWire(n) != -1 && SeqCmp(EndWire(n), Wire(a)) >= 0)
      <==> n.lo <= b && a <= n.hi
    ensures EndWire(n) != -1 ==> 0 <= EndWire(n)
  {
    CmpAgrees(n.lo, a);
    CmpAgrees(n.lo, b);
    CmpAgrees(n.hi, a);
  }

  lemma PosIs(size: int, head: int, nodes: seq<Node>, k: nat)
    requires Placed(size, head, nodes) && k < |nodes|
    ensures nodes[k].pos == Slot(head, nodes[0].lo, nodes[k].lo, size)
  {
  }

  /** Only the first node is in the head's slot. */
  lemma FirstOnly(size: int, head: int, nodes: seq<Node>, k: nat)
    requires Ascending(nodes) && Placed(size, head, nodes) && k < |nodes|
    ensures nodes[k].pos == head <==> k == 0
    ensures nodes[k].pos == nodes[|nodes| - 1].pos <==> k == |nodes| - 1
  {
    PosDistinct(size, head, nodes);
  }

  /** Between the start of node `k` and the next node all slots are free. */
  lemma StopsAt(d1: seq<int32>, d2: seq<int32>, size: int, head: int, nodes: seq<Node>, k: nat, y: int)
    requires Ascending(nodes) && Placed(size, head, nodes) && Stored(d1, d2, size, nodes) && k < |nodes|
    requires nodes[k].lo <= y < nodes[0].lo + size && (k + 1 < |nodes| ==> y < nodes[k + 1].lo)
    ensures 0 <= Slot(head, nodes[0].lo, y, size) < size
    ensures d1[Slot(head, nodes[0].lo, y, size)] != -1 <==> y == nodes[k].lo
  {
    SlotInRange(head, nodes[0].lo, y, size);
    if y != nodes[k].lo {
      forall j | 0 <= j < |nodes|
        ensures nodes[j].lo != y && -size < nodes[j].lo - y < size
      {
      }
      SlotFree(d1, d2, size, head, nodes, y);
    }
  }

  /** Node `k` without `s` in its middle. */
  function Gapped(nodes: seq<Node>, k: nat, s: int, loc: int): seq<Node>
    requires k < |nodes|
  {
    SetHi(Halved(nodes, k, s, loc), k, s - 1)
  }

  lemma Fallen(d1: seq<int32>, d2: seq<int32>, nx: seq<int>, pr: seq<int>, size: int, head: int, tail: int,
               nodes: seq<Node>, k: nat, s: int, loc: int)
    requires Embedded(d1, d2, nx, size, head, nodes) && Disjoint(nodes) && Spans(nodes, size)
    requires Back(pr, size, nodes) && TailOf(tail, nodes)
    requires k < |nodes| && nodes[k].lo < s < nodes[k].hi && loc == Slot(head, nodes[0].lo, s + 1, size)
    ensures
      var i := nodes[k].pos;
      && 0 <= i < size && 0 <= loc < size && i != loc
      && d1[loc] == -1 && d2[loc] == -1
      && Embedded(d1[loc := Wire(s + 1)],
                  d2[i := EndWire(nodes[k].(hi := s - 1))][loc := EndWire(Node(s + 1, nodes[k].hi, loc))],
                  nx[loc := nx[i]][i := loc], size, head, Gapped(nodes, k, s, loc))
      && (k + 1 < |nodes| ==>
            0 <= nodes[k + 1].pos < size && nodes[k + 1].pos != i && nodes[k + 1].pos != loc && tail != i)
      && Back(if k + 1 < |nodes| then pr[loc := i][nodes[k + 1].pos := loc] else pr[loc := i], size,
           Gapped(nodes, k, s, loc))
      && TailOf(if k + 1 < |nodes| then tail else loc, Gapped(nodes, k, s, loc))
  {
    hide Stored, Placed, Chained, Ascending, Disjoint, Spans, Wire, Slot, Back, Apart;
    var i, n := nodes[k].pos, Node(s + 1, nodes[k].hi, loc);
    NodeAt(d1, d2, nx, size, head, nodes, k);
    HalveEmbedded(d1, d2, nx, size, head, nodes, k, s, loc);
    HalveOrder(nodes, size, k, s, loc);
    var half := Halved(nodes, k, s, loc);
    var d1', d2', nx' := d1[loc := Wire(s + 1)], d2[i := EndWire(nodes[k].(hi := s))][loc := EndWire(n)],
        nx[loc := nx[i]][i := loc];
    SetEnd(d1', d2', nx', size, head, half, k, s - 1);
    assert d2'[i := EndWire(nodes[k].(hi := s - 1))] == d2[i := EndWire(nodes[k].(hi := s - 1))][loc := EndWire(n)];
    IsApart(size, head, nodes);
    FirstOnly(size, head, nodes, k);
    SlotAway(d1, d2, size, head, nodes, k, s);
    BackSetHi(pr, size, nodes, k, s);
    ApartSetHi(nodes, k, s);
    BackInsert(pr, size, SetHi(nodes, k, s), k + 1, n);
    ghost var pr' := if k + 1 < |nodes| then pr[loc := i][nodes[k + 1].pos := loc] else pr[loc := i];
    BackSetHi(pr', size, half, k, s - 1);
  }

  lemma ApartSetHi(nodes: seq<Node>, k: nat, hi: int)
    requires Apart(nodes) && k < |nodes|
    ensures Apart(SetHi(nodes, k, hi))
    ensures forall j :: 0 <= j < |nodes| ==> SetHi(nodes, k, hi)[j].pos == nodes[j].pos
  {
  }

  lemma SlotAway(d1: seq<int32>, d2: seq<int32>, size: int, head: int, nodes: seq<Node>, k: nat, s: int)
    requires Ascending(nodes) && Placed(size, head, nodes) && Stored(d1, d2, size, nodes)
    requires Disjoint(nodes) && Spans(nodes, size) && k < |nodes| && nodes[k].lo < s < nodes[k].hi
    ensures forall j :: 0 <= j < |nodes| ==>
              0 <= nodes[j].pos < size && nodes[j].pos != Slot(head, nodes[0].lo, s + 1, size)
  {
    SpanNear(nodes, size, k);
    PosDistinct(size, head, nodes);
    SlotFree(d1, d2, size, head, nodes, s + 1);
  }

  lemma FallenMembers(nodes: seq<Node>, k: nat, s: int, loc: int, size: int)
    requires Ascending(nodes) && Disjoint(nodes) && Spans(nodes, size) && k < |nodes| && nodes[k].lo < s < nodes[k].hi
    ensures Members(Gapped(nodes, k, s, loc)) == Members(nodes) - {s}
    ensures Total(Gapped(nodes, k, s, loc)) == Total(nodes) - 1
    ensures Disjoint(Gapped(nodes, k, s, loc)) && Spans(Gapped(nodes, k, s, loc), size)
  {
    hide Members, Total, Ascending, Disjoint, Spans;
    HalveMembers(nodes, k, s, loc);
    HalveOrder(nodes, size, k, s, loc);
    SpanNear(nodes, size, k);
    HalveAscending(nodes, size, k, s, loc);
    ShrinkMembers(Halved(nodes, k, s, loc), k);
    ShrinkOrder(Halved(nodes, k, s, loc), k, size);
  }

  lemma HalveAscending(nodes: seq<Node>, size: int, k: nat, s: int, loc: int)
    requires Ascending(nodes) && Disjoint(nodes) && Spans(nodes, size) && k < |nodes| && nodes[k].lo <= s < nodes[k].hi
    ensures Ascending(Halved(nodes, k, s, loc))
  {
    HalveOrder(nodes, size, k, s, loc);
  }
}
