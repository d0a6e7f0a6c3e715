/** The sender's loss list: CSndLossList on its circular arrays. */
module SndLossList {
  import opened Arith
  import opened Circular
  import opened SeqNo
  import opened IntSets
  import opened LossNodes

  class SndLossList {
    const size: int
    const data1: array<int32>
    const data2: array<int32>
    const next: array<int>
    var head: int
    var length: int
    var lastInsertPos: int

    ghost var nodes: seq<Node>

    /** The list in its arrays, where intervals may still overlap. */
    ghost predicate Core()
      reads this, data1, data2, next
    {
      && 0 < size <= TH
      && data1.Length == data2.Length == next.Length == size && data1 != data2
      && Embedded(data1[..], data2[..], next[..], size, head, nodes)
      && Spans(nodes, size)
      && length == Total(nodes)
      && (lastInsertPos != -1 ==> At(nodes, lastInsertPos))
    }

    ghost predicate Valid()
      reads this, data1, data2, next
    {
      Core() && Disjoint(nodes)
    }

    /** The sequence numbers in the list, as packet indices. */
    ghost function Contents(): set<int>
      reads this
    {
      Members(nodes)
    }

    constructor (size: int)
      requires 0 < size <= TH
      ensures Valid() && Contents() == {} && this.size == size
      ensures fresh(data1) && fresh(data2) && fresh(next)
    {
      this.size := size;
      data1 := new int32[size];
      data2 := new int32[size];
      next := new int[size];
      head, length, lastInsertPos := -1, 0, -1;
      nodes := [];
      new;
      for i := 0 to size
        invariant forall p :: 0 <= p < i ==> data1[p] == -1 && data2[p] == -1
        invariant head == -1 && length == 0 && lastInsertPos == -1 && nodes == []
      {
        data1[i], data2[i] := -1, -1;
      }
    }

    /** Number of sequence numbers in the list. */
    method GetLossLength() returns (n: int)
      requires Valid()
      ensures n == |Contents()|
    {
      TotalIsSize(nodes);
      n := length;
    }

    /** [3] becomes [], and the head moves to the next node. */
    method PopHead()
      requires Valid() && nodes != [] && nodes[0].lo == nodes[0].hi && lastInsertPos != head
      modifies this, data1
      ensures Valid()
      ensures Contents() == old(Contents()) - {old(nodes)[0].lo}
    {
      hide Stored, Placed, Chained, Ascending, Disjoint, Spans, At, Members, Total, Wire;
      ghost var d1, d2, nx, ns := data1[..], data2[..], next[..], nodes;
      NodeAt(d1, d2, nx, size, head, ns, 0);
      RemoveNode(d1, d2, nx, size, head, ns, 0);
      RemoveMembers(ns, 0);
      RemoveKeepsOrder(ns, size, 0);
      LastAfterRemove(ns, 0, lastInsertPos);
      data1[head] := -1;
      assert data1[..] == d1[head := -1] && data2[..] == d2[head := -1];
      head := next[head];
      length := length - 1;
      nodes := RemoveAt(ns, 0);
    }

    /** [3, 7] becomes [], [4, 7]. */
    method ShiftHead()
      requires Valid() && nodes != [] && nodes[0].lo < nodes[0].hi && lastInsertPos != head
      modifies this, data1, data2, next
      ensures Valid()
      ensures Contents() == old(Contents()) - {old(nodes)[0].lo}
    {
      hide Stored, Placed, Chained, Ascending, Disjoint, Spans, At, Members, Total, Wire;
      ghost var d1, d2, nx, ns := data1[..], data2[..], next[..], nodes;
      NodeAt(d1, d2, nx, size, head, ns, 0);
      var loc := (head + 1) % size;
      ModSmall(head + 1, size);
      assert loc == Slot(head, ns[0].lo, ns[0].lo + 1, size);
      Shift(d1, d2, nx, size, head, ns, 0, loc);
      ShiftMembers(ns, 0, loc);
      LastAfterShift(ns, 0, loc, lastInsertPos);
      SpanNear(ns, size, 0);
      MoveStart(data1, data2, head, loc, ns[0]);
      next[loc] := next[head];
      nodes := Shifted(ns, 0, loc);
      assert next[..] == LinkShifted(nx, ns, 0, loc);
      head := loc;
      length := length - 1;
    }

    /** Let the node in slot `loc` reach as far as the node in slot `i`, which it touches, and
        count what both held only once. */
    method FoldEnd(loc: int, i: int, ghost ns: seq<Node>, ghost m: nat)
      requires data1.Length == data2.Length == size && data1 != data2 && 0 <= loc < size && 0 <= i < size && i != loc
      requires m + 1 < |ns| && ns[m].lo < ns[m].hi && ns[m].lo < ns[m + 1].lo <= ns[m + 1].hi
      requires ns[m + 1].lo <= ns[m].hi + 1 && ns[m].hi < ns[m].lo + TH && ns[m + 1].hi < ns[m].lo + TH
      requires data1[i] == Wire(ns[m + 1].lo) && data2[i] == EndWire(ns[m + 1]) && data2[loc] == EndWire(ns[m])
      modifies this`length, data2
      ensures data2[..] == old(data2[..])[loc := EndWire(Joined(ns, m)[m])]
      ensures length == old(length) - Overlap(ns, m)
    {
      hide Wire, SeqCmp, SeqLen;
      CmpAgrees(ns[m + 1].hi, ns[m].hi);
      CmpAgrees(ns[m].hi, ns[m + 1].lo);
      IncAgrees(ns[m].hi);
      CmpAgrees(ns[m + 1].lo, ns[m].hi + 1);
      ghost var d2 := data2[..];
      if data2[i] != -1 {
        if SeqCmp(data2[i], data2[loc]) > 0 {
          if SeqCmp(data2[loc], data1[i]) >= 0 {
            LenAgrees(ns[m + 1].lo, ns[m].hi);
            length := length - SeqLen(data1[i], data2[loc]) as int;
          }
          data2[loc] := data2[i];
        } else {
          LenAgrees(ns[m + 1].lo, ns[m + 1].hi);
          length := length - SeqLen(data1[i], data2[i]) as int;
        }
      } else {
        if data1[i] == IncSeq(data2[loc]) {
          data2[loc] := data1[i];
        } else {
          length := length - 1;
        }
      }
      assert data2[..] == d2[loc := data2[loc]];
    }

    /** Fold node `m + 1`, which node `m` in slot `loc` touches, into node `m`. */
    method JoinNext(loc: int, ghost m: nat)
      requires Core() && DisjointBut(nodes, m) && m + 1 < |nodes| && nodes[m].pos == loc == lastInsertPos
      requires nodes[m].lo < nodes[m].hi && nodes[m + 1].lo <= nodes[m].hi + 1
      modifies this, data1, data2, next
      ensures Core() && nodes == Joined(old(nodes), m) && DisjointBut(nodes, m) && lastInsertPos == loc
      ensures Contents() == old(Contents())
    {
      hide Stored, Placed, Chained, Ascending, DisjointBut, Disjoint, Spans, At, Members, Total, Wire, EndWire, Joined,
        Overlap;
      ghost var d1, d2, nx, ns := data1[..], data2[..], next[..], nodes;
      NodeAt(d1, d2, nx, size, head, ns, m);
      NodeAt(d1, d2, nx, size, head, ns, m + 1);
      SpanNear(ns, size, m);
      SpanNear(ns, size, m + 1);
      JoinEmbedded(d1, d2, nx, size, head, ns, m);
      JoinMembers(ns, m);
      JoinOrder(ns, m, size);
      JoinedPos(ns, m);
      var i := next[loc];
      FoldEnd(loc, i, ns, m);
      data1[i] := -1;
      data2[i] := -1;
      next[loc] := next[i];
      nodes := Joined(ns, m);
      assert data1[..] == d1[i := -1];
      assert data2[..] == d2[i := -1][loc := EndWire(nodes[m])];
      assert next[..] == nx[loc := nx[i]];
      NodeIsAt(nodes, m);
    }

    /** The first interval of an empty list goes to slot 0. */
    method InsertFirst(seqno1: int32, seqno2: int32, ghost a: int, ghost b: int)
      requires Valid() && nodes == [] && Roomy(nodes, a, b, size) && seqno1 == Wire(a) && seqno2 == Wire(b)
      modifies this, data1, data2, next
      ensures Valid() && Contents() == Range(a, b)
    {
      ghost var d1, d2, nx := data1[..], data2[..], next[..];
      CmpAgrees(a, b);
      LenAgrees(a, b);
      FirstEmbedded(d1, d2, nx, size, head, a, b);
      head := 0;
      data1[head] := seqno1;
      if seqno2 != seqno1 {
        data2[head] := seqno2;
      }
      next[head] := -1;
      lastInsertPos := head;
      length := length + SeqLen(seqno1, seqno2) as int;
      nodes := [Node(a, b, 0)];
      assert data1[..] == d1[0 := Wire(a)] && data2[..] == d2[0 := EndWire(nodes[0])] && next[..] == nx[0 := -1];
      MembersOne(nodes[0]);
      NodeIsAt(nodes, 0);
    }

    /** A new node in slot `loc`, in front of all others or behind the node in slot `prior`. */
    method AddNode(loc: int, prior: int, seqno1: int32, seqno2: int32, ghost k: nat, ghost a: int, ghost b: int)
      requires Valid() && nodes != [] && Roomy(nodes, a, b, size) && k <= |nodes| && Fits(size, nodes, k, a)
      requires seqno1 == Wire(a) && seqno2 == Wire(b) && loc == Slot(head, nodes[0].lo, a, size)
      requires prior == if k == 0 then -1 else nodes[k - 1].pos
      requires k > 0 ==> nodes[k - 1].hi < a
      modifies this, data1, data2, next
      ensures Core() && nodes == InsertAt(old(nodes), k, Node(a, b, loc)) && DisjointBut(nodes, k)
      ensures lastInsertPos == loc && Contents() == old(Contents()) + Range(a, b)
    {
      hide Stored, Placed, Chained, Ascending, DisjointBut, Disjoint, Spans, At, Members, Total, Wire, Fits, Roomy,
        SeqCmp;
      ghost var d1, d2, nx, ns, n := data1[..], data2[..], next[..], nodes, Node(a, b, loc);
      RoomyBounds(ns, a, b, size);
      CmpAgrees(a, b);
      LenAgrees(a, b);
      InsertNode(d1, d2, nx, size, head, ns, k, n);
      InsertMembers(ns, k, n);
      InsertOrder(ns, k, n, size);
      NodeAt(d1, d2, nx, size, head, ns, if k == 0 then 0 else k - 1);
      data1[loc] := seqno1;
      if seqno2 != seqno1 {
        data2[loc] := seqno2;
      }
      if prior == -1 {
        next[loc] := head;
        head := loc;
      } else {
        next[loc] := next[prior];
        next[prior] := loc;
      }
      lastInsertPos := loc;
      length := length + SeqLen(seqno1, seqno2) as int;
      nodes := InsertAt(ns, k, n);
      assert data1[..] == d1[loc := Wire(a)] && data2[..] == d2[loc := EndWire(n)];
      assert next[..] == LinkNew(nx, ns, k, loc);
      assert nodes[k] == n;
      NodeIsAt(nodes, k);
    }

    /** Node `k` in slot `loc`, ending in `end`, grows to end in `seqno2`. */
    method Extend(loc: int, end: int32, seqno2: int32, ghost k: nat, ghost a: int, ghost b: int)
      requires Valid() && Roomy(nodes, a, b, size) && k < |nodes| && nodes[k].pos == loc == lastInsertPos
      requires nodes[k].lo <= a <= nodes[k].hi < b && end == Wire(nodes[k].hi) && seqno2 == Wire(b)
      modifies this, data2
      ensures Core() && nodes == SetHi(old(nodes), k, b) && DisjointBut(nodes, k)
      ensures lastInsertPos == loc && Contents() == old(Contents()) + Range(a, b)
    {
      hide Stored, Placed, Chained, Ascending, DisjointBut, Disjoint, Spans, At, Members, Total, Wire, SeqCmp, SeqLen,
        IncSeq;
      ghost var d1, d2, nx, ns := data1[..], data2[..], next[..], nodes;
      RoomyNear(ns, a, b, size, k);
      LenAgrees(ns[k].hi, b);
      SetEnd(d1, d2, nx, size, head, ns, k, b);
      SetHiMembers(ns, k, a, b);
      SetHiOrder(ns, k, a, b, size);
      length := length + (SeqLen(end, seqno2) as int - 1);
      data2[loc] := seqno2;
      nodes := SetHi(ns, k, b);
      assert data2[..] == d2[loc := EndWire(ns[k].(hi := b))];
      NodeIsAt(nodes, k);
    }

    /** From node `k0` in slot `start`, walk to the last node that starts before `a`. */
    method FindPrior(start: int, seqno: int32, ghost a: int, ghost k0: nat) returns (i: int, ghost k: nat)
      requires Valid() && seqno == Wire(a) && k0 < |nodes| && nodes[k0].pos == start && nodes[k0].lo < a
      requires forall j :: 0 <= j < |nodes| ==> Near(nodes[j].lo, a)
      ensures k0 <= k < |nodes| && nodes[k].pos == i && nodes[k].lo < a
      ensures k + 1 < |nodes| ==> a <= nodes[k + 1].lo
    {
      hide Stored, Placed, Chained, DisjointBut, Disjoint, Spans, At, Members, Total, Wire;
      i, k := start, k0;
      NodeAt(data1[..], data2[..], next[..], size, head, nodes, k);
      if k + 1 < |nodes| {
        NodeAt(data1[..], data2[..], next[..], size, head, nodes, k + 1);
        CmpAgrees(nodes[k + 1].lo, a);
      }
      while next[i] != -1 && SeqCmp(data1[next[i]], seqno) < 0
        invariant k0 <= k < |nodes| && nodes[k].pos == i && nodes[k].lo < a
        invariant 0 <= i < size && next[i] == NextPos(nodes, k)
        invariant k + 1 < |nodes| ==> 0 <= next[i] < size && data1[next[i]] == Wire(nodes[k + 1].lo)
        invariant k + 1 < |nodes| ==> (SeqCmp(data1[next[i]], seqno) < 0 <==> nodes[k + 1].lo < a)
        decreases |nodes| - k
      {
        i, k := next[i], k + 1;
        NodeAt(data1[..], data2[..], next[..], size, head, nodes, k);
        if k + 1 < |nodes| {
          NodeAt(data1[..], data2[..], next[..], size, head, nodes, k + 1);
          CmpAgrees(nodes[k + 1].lo, a);
        }
      }
    }

    /** Split node `k` in slot `i` after `cut`; the rest moves to slot `loc`. */
    method Split(i: int, loc: int, seqno: int32, ghost k: nat, ghost cut: int)
      requires Valid() && k < |nodes| && nodes[k].pos == i && nodes[k].lo <= cut < nodes[k].hi
      requires seqno == Wire(cut) && loc == Slot(head, nodes[0].lo, cut + 1, size)
      modifies this, data1, data2, next
      ensures Valid() && nodes == Halved(old(nodes), k, cut, loc) && Contents() == old(Contents())
      ensures head == old(head)
    {
      hide Stored, Placed, Chained, Ascending, DisjointBut, Disjoint, Spans, At, Members, Total, Wire, SeqCmp, SeqLen,
        IncSeq;
      ghost var d1, d2, nx, ns := data1[..], data2[..], next[..], nodes;
      NodeAt(d1, d2, nx, size, head, ns, k);
      SpanNear(ns, size, k);
      HalveEmbedded(d1, d2, nx, size, head, ns, k, cut, loc);
      HalveMembers(ns, k, cut, loc);
      HalveOrder(ns, size, k, cut, loc);
      IncAgrees(cut);
      CmpAgrees(ns[k].hi, cut + 1);
      CmpAgrees(ns[k].lo, cut);
      data1[loc] := IncSeq(seqno);
      if SeqCmp(data2[i], data1[loc]) > 0 {
        data2[loc] := data2[i];
      }
      data2[i] := if data1[i] == seqno then -1 else seqno;
      next[loc] := next[i];
      next[i] := loc;
      nodes := Halved(ns, k, cut, loc);
      assert data2[..] == d2[i := EndWire(ns[k].(hi := cut))][loc := EndWire(Node(cut + 1, ns[k].hi, loc))];
      assert data1[..] == d1[loc := Wire(cut + 1)];
      assert next[..] == nx[loc := nx[i]][i := loc];
      LastAfterHalve(ns, k, cut, loc, lastInsertPos);
    }

    /** Free the first node. */
    method DropHead()
      requires Valid() && nodes != []
      modifies this, data1, data2
      ensures Valid() && nodes == old(nodes)[1..] && head == NextPos(old(nodes), 0)
      ensures Contents() == old(Contents()) - Range(old(nodes)[0].lo, old(nodes)[0].hi)
    {
      hide Stored, Placed, Chained, Ascending, DisjointBut, Disjoint, Spans, At, Members, Total, Wire, SeqCmp, SeqLen,
        IncSeq;
      ghost var d1, d2, nx, ns := data1[..], data2[..], next[..], nodes;
      NodeAt(d1, d2, nx, size, head, ns, 0);
      SpanNear(ns, size, 0);
      RemoveNode(d1, d2, nx, size, head, ns, 0);
      RemoveFirstMembers(ns);
      RemoveKeepsOrder(ns, size, 0);
      LastAfterRemove(ns, 0, lastInsertPos);
      LenAgrees(ns[0].lo, ns[0].hi);
      CmpAgrees(ns[0].lo, ns[0].hi);
      if data2[head] != -1 {
        length := length - SeqLen(data1[head], data2[head]) as int;
        data2[head] := -1;
      } else {
        length := length - 1;
      }
      data1[head] := -1;
      assert data1[..] == d1[head := -1] && data2[..] == d2[head := -1];
      if lastInsertPos == head {
        lastInsertPos := -1;
      }
      head := next[head];
      nodes := RemoveAt(ns, 0);
    }

    /** Fold following nodes into node `m` as long as it reaches them. */
    method Coalesce(loc: int, ghost m: nat)
      requires Core() && DisjointBut(nodes, m) && m < |nodes| && nodes[m].pos == loc == lastInsertPos
      modifies this, data1, data2, next
      ensures Valid() && Contents() == old(Contents())
    {
      hide Stored, Placed, Chained, Ascending, DisjointBut, Disjoint, Spans, At, Members, Total, Wire;
      ghost var d1, d2, nx := data1[..], data2[..], next[..];
      NodeAt(d1, d2, nx, size, head, nodes, m);
      while next[loc] != -1 && data2[loc] != -1
        invariant Core() && DisjointBut(nodes, m) && m < |nodes| && nodes[m].pos == loc == lastInsertPos
        invariant 0 <= loc < size && next[loc] == NextPos(nodes, m) && data2[loc] == EndWire(nodes[m])
        invariant nodes[m].lo <= nodes[m].hi
        invariant Contents() == old(Contents())
        decreases |nodes|
      {
        d1, d2, nx := data1[..], data2[..], next[..];
        var i := next[loc];
        NodeAt(d1, d2, nx, size, head, nodes, m);
        NodeAt(d1, d2, nx, size, head, nodes, m + 1);
        SpanNear(nodes, size, m);
        SpanNear(nodes, size, m + 1);
        IncAgrees(nodes[m].hi);
        CmpAgrees(nodes[m + 1].lo, nodes[m].hi + 1);
        if SeqCmp(data1[i], IncSeq(data2[loc])) <= 0 {
          JoinOrder(nodes, m, size);
          JoinNext(loc, m);
          NodeAt(data1[..], data2[..], next[..], size, head, nodes, m);
        } else {
          break;
        }
      }
      NodeAt(data1[..], data2[..], next[..], size, head, nodes, m);
      ghost var more := m + 1 < |nodes|;
      if more {
        NodeAt(data1[..], data2[..], next[..], size, head, nodes, m + 1);
      }
      GapDisjoint(nodes, m);
    }

    /** Node `k` in slot `loc` starts with `a`: let it end in `b`, unless it reaches that far already. */
    method Grow(loc: int, seqno1: int32, seqno2: int32, ghost k: nat, ghost a: int, ghost b: int) returns (grown: int)
      requires Valid() && Roomy(nodes, a, b, size) && k < |nodes| && nodes[k].pos == loc == lastInsertPos
      requires nodes[k].lo == a && seqno1 == Wire(a) && seqno2 == Wire(b)
      modifies this, data2
      ensures Core() && Contents() == old(Contents()) + Range(a, b)
      ensures grown == -1 ==> Disjoint(nodes)
      ensures grown != -1 ==>
                grown == loc && DisjointBut(nodes, k) && k < |nodes| && nodes[k].pos == loc == lastInsertPos
    {
      hide Stored, Placed, Chained, Ascending, DisjointBut, Disjoint, Spans, At, Members, Total, Wire, Roomy;
      ghost var d1, d2, nx := data1[..], data2[..], next[..];
      NodeAt(d1, d2, nx, size, head, nodes, k);
      RoomyNear(nodes, a, b, size, k);
      CmpAgrees(b, nodes[k].hi);
      CmpAgrees(b, a);
      RoomyBounds(nodes, a, b, size);
      ButDisjoint(nodes, k);
      grown := loc;
      if data2[loc] == -1 {
        if seqno2 != seqno1 {
          Extend(loc, seqno1, seqno2, k, a, b);
        } else {
          AlreadyIn(nodes, k, a, b);
        }
      } else if SeqCmp(seqno2, data2[loc]) > 0 {
        Extend(loc, data2[loc], seqno2, k, a, b);
      } else {
        AlreadyIn(nodes, k, a, b);
        grown := -1;
      }
    }

    /** Where the search may begin: at the node of the last insertion when it lies before `a`. */
    method StartPoint(seqno1: int32, ghost a: int) returns (start: int, ghost k: nat)
      requires Valid() && nodes != [] && seqno1 == Wire(a) && nodes[0].lo < a
      requires forall j :: 0 <= j < |nodes| ==> Near(nodes[j].lo, a)
      ensures k < |nodes| && nodes[k].pos == start && nodes[k].lo < a
    {
      hide Stored, Placed, Chained, Ascending, Disjoint, Spans, At, Members, Total, Wire, SeqCmp;
      ghost var d1, d2, nx := data1[..], data2[..], next[..];
      NodeAt(d1, d2, nx, size, head, nodes, 0);
      start, k := head, 0;
      if lastInsertPos != -1 {
        ghost var l := NodeOf(nodes, lastInsertPos);
        NodeAt(d1, d2, nx, size, head, nodes, l);
        CmpAgrees(nodes[l].lo, a);
        if SeqCmp(data1[lastInsertPos], seqno1) < 0 {
          start, k := lastInsertPos, l;
        }
      }
    }

    /** No node starts with `a`, which comes after the head: extend the node before it, or add one. */
    method PlaceBetween(loc: int, seqno1: int32, seqno2: int32, ghost a: int, ghost b: int)
      returns (place: int, ghost m: nat)
      requires Valid() && nodes != [] && Roomy(nodes, a, b, size) && seqno1 == Wire(a) && seqno2 == Wire(b)
      requires loc == Slot(head, nodes[0].lo, a, size) && 0 <= loc && nodes[0].lo < a
      requires forall j :: 0 <= j < |nodes| ==> nodes[j].lo != a
      modifies this, data1, data2, next
      ensures Core() && Contents() == old(Contents()) + Range(a, b)
      ensures place == -1 ==> Disjoint(nodes)
      ensures place != -1 ==> DisjointBut(nodes, m) && m < |nodes| && nodes[m].pos == place == lastInsertPos
    {
      hide Stored, Placed, Chained, Ascending, DisjointBut, Disjoint, Spans, At, Members, Total, Wire, Fits, Roomy,
        SeqCmp;
      ghost var d1, d2, nx := data1[..], data2[..], next[..];
      NodeAt(d1, d2, nx, size, head, nodes, 0);
      RoomyAll(nodes, a, b, size);
      var i; ghost var k;
      i, k := StartPoint(seqno1, a);
      i, k := FindPrior(i, seqno1, a, k);
      NodeAt(d1, d2, nx, size, head, nodes, k);
      RoomyNear(nodes, a, b, size, k);
      RoomyBounds(nodes, a, b, size);
      CmpAgrees(nodes[k].hi, a);
      CmpAgrees(nodes[k].hi, b);
      if data2[i] == -1 || SeqCmp(data2[i], seqno1) < 0 {
        FitsAfter(nodes, k, a, b, size);
        AddNode(loc, i, seqno1, seqno2, k + 1, a, b);
        place, m := loc, k + 1;
      } else {
        lastInsertPos := i;
        NodeIsAt(nodes, k);
        if SeqCmp(data2[i], seqno2) < 0 {
          Extend(i, data2[i], seqno2, k, a, b);
          place, m := i, k;
        } else {
          AlreadyIn(nodes, k, a, b);
          place, m := -1, 0;
        }
      }
    }

    /** Put `a..b` into a node: a new one, or one that it overlaps from above.  `loc` is that
        node's slot, or -1 when an existing node already covers the numbers. */
    method Place(seqno1: int32, seqno2: int32, ghost a: int, ghost b: int) returns (loc: int, ghost m: nat)
      requires Valid() && nodes != [] && Roomy(nodes, a, b, size) && seqno1 == Wire(a) && seqno2 == Wire(b)
      modifies this, data1, data2, next
      ensures Core() && Contents() == old(Contents()) + Range(a, b)
      ensures loc == -1 ==> Disjoint(nodes)
      ensures loc != -1 ==> DisjointBut(nodes, m) && m < |nodes| && nodes[m].pos == loc == lastInsertPos
    {
      hide Stored, Placed, Chained, Ascending, DisjointBut, Disjoint, Spans, At, Members, Total, Wire, Fits, Roomy,
        SeqCmp;
      ghost var d1, d2, nx := data1[..], data2[..], next[..];
      m := 0;
      NodeAt(d1, d2, nx, size, head, nodes, 0);
      RoomyNear(nodes, a, b, size, 0);
      OffAgrees(nodes[0].lo, a);
      var offset := SeqOff(data1[head], seqno1) as int;
      loc := (head + offset + size) % size;
      ModSmall(head + offset + size, size);
      if offset < 0 {
        FitsFirst(nodes, a, b, size);
        AddNode(loc, -1, seqno1, seqno2, 0, a, b);
      } else if offset > 0 {
        RoomyAll(nodes, a, b, size);
        ghost var k := Lookup(d1, d2, nx, size, head, nodes, a, loc);
        if seqno1 == data1[loc] {
          m := k;
          lastInsertPos := loc;
          NodeIsAt(nodes, k);
          loc := Grow(loc, seqno1, seqno2, k, a, b);
        } else {
          loc, m := PlaceBetween(loc, seqno1, seqno2, a, b);
        }
      } else {
        lastInsertPos := head;
        NodeIsAt(nodes, 0);
        if seqno2 != seqno1 {
          loc := Grow(loc, seqno1, seqno2, 0, a, b);
        } else {
          AlreadyIn(nodes, 0, a, a);
          CmpAgrees(a, b);
          loc := -1;
        }
      }
    }

    /** Add `a..b`, and report how many of its numbers were not in the list yet. */
    method Insert(seqno1: int32, seqno2: int32, ghost a: int, ghost b: int) returns (n: int)
      requires Valid() && seqno1 == Wire(a) && seqno2 == Wire(b)
      requires a <= b < a + size
      requires forall x <- Contents() :: x - a < size && b - x < size
      modifies this, data1, data2, next
      ensures Valid()
      ensures Contents() == old(Contents()) + Range(a, b)
      ensures n == |Contents()| - |old(Contents())|
    {
      hide Stored, Placed, Chained, Ascending, DisjointBut, Disjoint, Spans, At, Members, Total, Wire, Roomy;
      TotalIsSize(nodes);
      assert Contents() == Members(nodes);
      RoomyFromMembers(nodes, a, b, size);
      if length == 0 {
        InsertFirst(seqno1, seqno2, a, b);
        TotalIsSize(nodes);
        return length;
      }
      var origlen := length;
      var loc; ghost var m;
      loc, m := Place(seqno1, seqno2, a, b);
      if loc != -1 {
        Coalesce(loc, m);
      }
      TotalIsSize(nodes);
      return length - origlen;
    }

    /** Forget every number up to and including `s`. */
    method Remove(seqno: int32, ghost s: int)
      requires Valid() && seqno == Wire(s)
      requires forall x <- Contents() :: Near(x, s)
      modifies this, data1, data2, next
      ensures Valid()
      ensures Contents() == Above(old(Contents()), s)
    {
      hide Stored, Placed, Chained, Ascending, DisjointBut, Disjoint, Spans, At, Members, Total, Wire, CutAt;
      TotalIsSize(nodes);
      if length == 0 {
        assert Contents() == {};
        return;
      }
      NearMembers(nodes, s);
      NodeAt(data1[..], data2[..], next[..], size, head, nodes, 0);
      OffAgrees(nodes[0].lo, s);
      var offset := SeqOff(data1[head], seqno) as int;
      if offset == 0 {
        AboveFirst(nodes, s);
        if lastInsertPos == head {
          lastInsertPos := -1;
        }
        if data2[head] == -1 {
          PopHead();
        } else {
          ShiftHead();
        }
      } else if offset > 0 {
        var target; ghost var t;
        target, t := CutAfter((head + offset + size) % size, seqno, s);
        DropUntil(target, t, s);
      } else {
        AboveFirst(nodes, s);
      }
    }

    /** Arrange for a node boundary after `s`; `target` is the slot of the first node beyond it. */
    method CutAfter(loc: int, seqno: int32, ghost s: int) returns (target: int, ghost t: nat)
      requires Valid() && nodes != [] && seqno == Wire(s) && nodes[0].lo < s
      requires forall j :: 0 <= j < |nodes| ==> Near(nodes[j].lo, s) && Near(nodes[j].hi, s)
      requires loc == (head + (s - nodes[0].lo) + size) % size
      modifies this, data1, data2, next
      ensures Valid() && Contents() == old(Contents())
      ensures nodes != [] && CutAt(nodes, t, s) && target == PosOrEnd(nodes, t)
    {
      hide Stored, Placed, Chained, Ascending, DisjointBut, Disjoint, Spans, At, Members, Total, Wire, CutAt;
      ghost var d1, d2, nx := data1[..], data2[..], next[..];
      NodeAt(d1, d2, nx, size, head, nodes, 0);
      ModPlus(head + (s - nodes[0].lo), size);
      var i := head;
      ghost var k := LookupAhead(d1, d2, nx, size, head, nodes, s, loc);
      if seqno == data1[loc] {
        i := loc;
      } else {
        i, k := FindPrior(head, seqno, s, 0);
      }
      CutOrder(nodes, k, s);
      NodeAt(d1, d2, nx, size, head, nodes, k);
      NodeAt(d1, d2, nx, size, head, nodes, 0);
      SpanNear(nodes, size, k);
      CutAround(nodes, k, s);
      CmpAgrees(nodes[k].hi, s);
      t := k + 1;
      if data2[i] == -1 {
        target := next[i];
      } else if SeqCmp(data2[i], seqno) > 0 {
        target := (loc + 1) % size;
        NextSlot(head, nodes[0].lo, s, size, loc);
        HalveOrder(nodes, size, k, s, target);
        Split(i, target, seqno, k, s);
      } else {
        target := next[i];
      }
    }

    /** Remove all nodes in front of the one in slot `target`. */
    method DropUntil(target: int, ghost t: nat, ghost s: int)
      requires Valid() && nodes != [] && CutAt(nodes, t, s) && target == PosOrEnd(nodes, t)
      modifies this, data1, data2
      ensures Valid() && Contents() == Above(old(Contents()), s)
    {
      hide Stored, Placed, Chained, Ascending, DisjointBut, Disjoint, Spans, At, Members, Total, Wire, CutAt;
      ghost var left: nat := t;
      CutBounds(nodes, left, s);
      HeadIs(data1[..], data2[..], next[..], size, head, nodes, left);
      while head != target
        invariant Valid() && CutAt(nodes, left, s) && left <= |nodes| && target == PosOrEnd(nodes, left)
        invariant head == target <==> left == 0
        invariant Above(Contents(), s) == Above(old(Contents()), s)
        decreases left
      {
        CutTail(nodes, left, s);
        ghost var first := nodes[0];
        DropHead();
        left := left - 1;
        if nodes != [] {
          HeadIs(data1[..], data2[..], next[..], size, head, nodes, left);
        }
      }
      CutDone(nodes, s);
    }

    /** Take the smallest number off the list; -1 if there is none. */
    method GetLostSeq() returns (seqno: int32)
      requires Valid()
      modifies this, data1, data2, next
      ensures Valid()
      ensures old(Contents()) == {} ==> seqno == -1 && Contents() == {}
      ensures old(Contents()) != {} ==>
                seqno == Wire(Min(old(Contents()))) && Contents() == old(Contents()) - {Min(old(Contents()))}
    {
      hide Stored, Placed, Chained, Ascending, Disjoint, Spans, At, Members, Total, Wire;
      TotalIsSize(nodes);
      if length == 0 {
        return -1;
      }
      FirstIsMin(nodes);
      NodeAt(data1[..], data2[..], next[..], size, head, nodes, 0);
      if lastInsertPos == head {
        lastInsertPos := -1;
      }
      seqno := data1[head];
      if data2[head] == -1 {
        PopHead();
      } else {
        ShiftHead();
      }
    }
  }

  /** The remembered insert position survives unless its own node leaves. */
  lemma LastAfterRemove(nodes: seq<Node>, k: nat, last: int)
    requires k < |nodes|
    requires last != -1 ==> At(nodes, last)
    ensures last != -1 && last != nodes[k].pos ==> At(RemoveAt(nodes, k), last)
  {
    if last != -1 && last != nodes[k].pos {
      var j :| 0 <= j < |nodes| && nodes[j].pos == last;
      assert RemoveAt(nodes, k)[if j < k then j else j - 1] == nodes[j];
    }
  }

  lemma LastAfterShift(nodes: seq<Node>, k: nat, loc: int, last: int)
    requires k < |nodes|
    requires last != -1 ==> At(nodes, last)
    ensures last != -1 && last != nodes[k].pos ==> At(Shifted(nodes, k, loc), last)
  {
    if last != -1 && last != nodes[k].pos {
      var j :| 0 <= j < |nodes| && nodes[j].pos == last;
      assert Shifted(nodes, k, loc)[j] == nodes[j];
    }
  }

  lemma NodeIsAt(nodes: seq<Node>, k: nat)
    requires k < |nodes|
    ensures At(nodes, nodes[k].pos)
  {
  }

  lemma LastAfterHalve(nodes: seq<Node>, k: nat, cut: int, loc: int, last: int)
    requires k < |nodes|
    requires last != -1 ==> At(nodes, last)
    ensures last != -1 ==> At(Halved(nodes, k, cut, loc), last)
  {
    if last != -1 {
      var j :| 0 <= j < |nodes| && nodes[j].pos == last;
      assert Halved(nodes, k, cut, loc)[if j <= k then j else j + 1].pos == last;
    }
  }

  lemma NodeOf(nodes: seq<Node>, p: int) returns (k: nat)
    requires At(nodes, p)
    ensures k < |nodes| && nodes[k].pos == p
  {
    k :| 0 <= k < |nodes| && nodes[k].pos == p;
  }

  lemma HeadIs(d1: seq<int32>, d2: seq<int32>, nx: seq<int>, size: int, head: int, nodes: seq<Node>, t: nat)
    requires Embedded(d1, d2, nx, size, head, nodes) && nodes != [] && t <= |nodes|
    ensures head == PosOrEnd(nodes, t) <==> t == 0
  {
    PosDistinct(size, head, nodes);
  }

  lemma CutOrder(nodes: seq<Node>, k: nat, s: int)
    requires Ascending(nodes) && k < |nodes|
    requires nodes[k].lo == s || (nodes[k].lo < s && (k + 1 < |nodes| ==> s <= nodes[k + 1].lo)
        && forall j :: 0 <= j < |nodes| ==> nodes[j].lo != s)
    ensures nodes[k].lo <= nodes[k].hi
    ensures k + 1 < |nodes| ==> s < nodes[k + 1].lo
  {
  }

  lemma JoinedPos(nodes: seq<Node>, m: nat)
    requires m + 1 < |nodes|
    ensures m < |Joined(nodes, m)| && Joined(nodes, m)[m].pos == nodes[m].pos
  {
  }
}
