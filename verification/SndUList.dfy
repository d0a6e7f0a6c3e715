/** The schedule of sockets that want to send: CSndUList, a binary heap ordered by time stamp in
    which every node knows its position. */
module SndUList {

  class Node {
    var timeStamp: int
    /** Position on the heap, -1 when not on it. */
    var heapLoc: int

    constructor ()
      ensures timeStamp == 1 && heapLoc == -1
    {
      timeStamp, heapLoc := 1, -1;
    }
  }

  function Parent(i: int): int
    requires 0 < i
  {
    (i - 1) / 2
  }

  /** Position `i` is not earlier than its parent. */
  predicate Above(t: seq<int>, i: int)
    requires 0 < i < |t|
  {
    t[Parent(i)] <= t[i]
  }

  ghost predicate Ordered(t: seq<int>) {
    forall i {:trigger Above(t, i)} :: 0 < i < |t| ==> Above(t, i)
  }

  /** In order, except that position `q` may be too early. */
  ghost predicate EarlyAt(t: seq<int>, q: int) {
    && (forall i {:trigger Above(t, i)} :: 0 < i < |t| && i != q ==> Above(t, i))
    && Bridged(t, q)
  }

  /** In order, except that position `q` may be too late. */
  ghost predicate LateAt(t: seq<int>, q: int) {
    && (forall i {:trigger Above(t, i)} :: 0 < i < |t| && Parent(i) != q ==> Above(t, i))
    && Bridged(t, q)
  }

  /** The children of `q` are not earlier than the parent of `q`. */
  ghost predicate Bridged(t: seq<int>, q: int) {
    0 < q < |t| ==> forall i :: 0 < i < |t| && Parent(i) == q ==> t[Parent(q)] <= t[i]
  }

  /** The entry at `k` is not later than its children. */
  ghost predicate AtRest(t: seq<int>, k: int) {
    0 <= k < |t| ==> forall i :: 0 < i < |t| && Parent(i) == k ==> t[k] <= t[i]
  }

  function Swapped(t: seq<int>, p: int, q: int): seq<int>
    requires 0 <= p < |t| && 0 <= q < |t|
  {
    t[p := t[q]][q := t[p]]
  }

  lemma SwapUp(t: seq<int>, q: int)
    requires 0 < q < |t| && EarlyAt(t, q) && t[Parent(q)] > t[q]
    ensures EarlyAt(Swapped(t, Parent(q), q), Parent(q))
  {
    var p := Parent(q);
    var t' := Swapped(t, p, q);
    forall i | 0 < i < |t| && i != p
      ensures Above(t', i)
    {
      if i != q {
        assert Above(t, i);
      }
      if p > 0 {
        assert Above(t, p);
      }
    }
    if p > 0 {
      assert Above(t, p);
      forall i | 0 < i < |t| && Parent(i) == p
        ensures t'[Parent(p)] <= t'[i]
      {
        if i != q {
          assert Above(t, i);
        }
      }
    }
  }

  lemma SwapDown(t: seq<int>, q: int, p: int)
    requires 0 <= q < p < |t| && Parent(p) == q && LateAt(t, q) && t[p] < t[q]
    requires forall i :: 0 < i < |t| && Parent(i) == q ==> t[p] <= t[i]
    ensures LateAt(Swapped(t, p, q), p)
  {
    var t' := Swapped(t, p, q);
    forall i | 0 < i < |t| && Parent(i) != p
      ensures Above(t', i)
    {
      if Parent(i) != q {
        assert Above(t, i);
      }
    }
    forall i | 0 < i < |t| && Parent(i) == p
      ensures t'[q] <= t'[i]
    {
      assert Above(t, i);
    }
  }

  lemma EarlyDone(t: seq<int>, q: int)
    requires EarlyAt(t, q) && (0 < q < |t| ==> Above(t, q))
    ensures Ordered(t)
  {
  }

  lemma LateDone(t: seq<int>, q: int)
    requires LateAt(t, q) && forall i :: 0 < i < |t| && Parent(i) == q ==> t[q] <= t[i]
    ensures Ordered(t)
  {
    forall i | 0 < i < |t|
      ensures Above(t, i)
    {
      if Parent(i) == q {
      }
    }
  }

  /** The root is the earliest. */
  lemma {:induction false} RootIsEarliest(t: seq<int>, i: int)
    requires Ordered(t) && 0 <= i < |t|
    ensures t[0] <= t[i]
    decreases i
  {
    if i > 0 {
      RootIsEarliest(t, Parent(i));
      assert Above(t, i);
    }
  }

  lemma RootFirst(t: seq<int>)
    requires t != []
    ensures Ordered(t) && (forall i :: 0 <= i < |t| ==> 1 <= t[i]) ==> Ordered(t[0 := 1])
  {
    if Ordered(t) && forall i :: 0 <= i < |t| ==> 1 <= t[i] {
      var t' := t[0 := 1];
      forall i | 0 < i < |t|
        ensures Above(t', i)
      {
        assert Above(t, i);
      }
    }
  }

  lemma Appended(t: seq<int>, x: int)
    requires Ordered(t)
    ensures EarlyAt(t + [x], |t|)
  {
    forall i | 0 < i < |t|
      ensures Above(t + [x], i)
    {
      assert Above(t, i);
    }
  }

  /** The last entry takes the place of entry `k`. */
  function Filled(t: seq<int>, k: int): seq<int>
    requires 0 <= k < |t|
  {
    t[k := t[|t| - 1]][..|t| - 1]
  }

  lemma FilledLate(t: seq<int>, k: int)
    requires Ordered(t) && 0 <= k < |t| && (k > 0 ==> t[Parent(k)] <= t[|t| - 1])
    ensures LateAt(Filled(t, k), k)
  {
    var t' := Filled(t, k);
    forall i | 0 < i < |t'| && Parent(i) != k
      ensures Above(t', i)
    {
      assert Above(t, i);
    }
    if 0 < k {
      forall i | 0 < i < |t'| && Parent(i) == k
        ensures t'[Parent(k)] <= t'[i]
      {
        assert Above(t, i) && Above(t, k);
      }
    }
  }

  /** An entry earlier than the parent of the hole stays where it is put, out of order. */
  lemma FilledEarly(t: seq<int>, k: int)
    requires Ordered(t) && 0 < k < |t| && t[|t| - 1] < t[Parent(k)]
    ensures k < |t| - 1 && !Ordered(Filled(t, k))
    ensures AtRest(Filled(t, k), k)
  {
    assert Above(t, k);
    var t' := Filled(t, k);
    assert !Above(t', k);
    forall i | 0 < i < |t| - 1 && Parent(i) == k
      ensures t'[k] <= t'[i]
    {
      assert Above(t, i);
    }
  }

  // ----- Moving a new last entry up -----

  /** The entry at `q` has moved up past every later parent. */
  function Sifted(t: seq<int>, q: int): (t': seq<int>)
    requires 0 <= q < |t|
    ensures |t'| == |t|
    decreases q
  {
    if q > 0 && t[Parent(q)] > t[q] then Sifted(Swapped(t, Parent(q), q), Parent(q)) else t
  }

  lemma {:induction false} SiftedOrdered(t: seq<int>, q: int)
    requires 0 <= q < |t| && EarlyAt(t, q)
    ensures Ordered(Sifted(t, q))
    decreases q
  {
    hide EarlyAt, Ordered;
    if q > 0 && t[Parent(q)] > t[q] {
      SwapUp(t, q);
      SiftedOrdered(Swapped(t, Parent(q), q), Parent(q));
    } else {
      EarlyDone(t, q);
    }
  }

  /** `i` is `q` or lies between `q` and the root. */
  predicate OnPath(i: int, q: int)
    requires 0 <= q
    decreases q
  {
    i == q || (q > 0 && OnPath(i, Parent(q)))
  }

  lemma {:induction false} PathUp(i: int, q: int)
    requires 0 < i && 0 <= q && OnPath(i, q)
    ensures OnPath(Parent(i), q) && i <= q
    decreases q
  {
    if i != q {
      PathUp(i, Parent(q));
    }
  }

  /** Entries off the path stay. */
  lemma {:induction false} SiftedOff(t: seq<int>, q: int, i: int)
    requires 0 <= q < |t| && 0 <= i < |t| && !OnPath(i, q)
    ensures Sifted(t, q)[i] == t[i]
    decreases q
  {
    if q > 0 && t[Parent(q)] > t[q] {
      SiftedOff(Swapped(t, Parent(q), q), Parent(q), i);
    }
  }

  /** An entry earlier than its parent, when 1 moves up past it, leaves its new place as early. */
  lemma {:induction false} PathThrough(t: seq<int>, q: int, k: int)
    requires 0 < k < q < |t| && OnPath(k, q) && t[q] == 1 <= t[k] < t[Parent(k)]
    ensures !Ordered(Sifted(t, q))
    decreases q
  {
    hide Ordered;
    var p := Parent(q);
    if t[p] > 1 {
      var t1 := Swapped(t, p, q);
      PathUp(k, p);
      if p != k {
        PathThrough(t1, p, k);
      } else {
        assert Sifted(t, q) == Sifted(t1, k);
        var t2 := Swapped(t1, Parent(k), k);
        assert Sifted(t1, k) == Sifted(t2, Parent(k));
        NotOnPath(k, Parent(k));
        NotOnPath(q, Parent(k));
        SiftedOff(t2, Parent(k), k);
        SiftedOff(t2, Parent(k), q);
        Unordered(Sifted(t, q), q);
      }
    } else {
      Unordered(t, k);
    }
  }

  lemma {:induction false} NotOnPath(i: int, q: int)
    requires 0 <= q < i
    ensures !OnPath(i, q)
    decreases q
  {
    if q > 0 {
      NotOnPath(i, Parent(q));
    }
  }

  lemma Unordered(t: seq<int>, i: int)
    requires 0 < i < |t| && t[i] < t[Parent(i)]
    ensures !Ordered(t)
  {
    assert !Above(t, i);
  }

  /** In order, except that positions `q` and `k` may be too early. */
  ghost predicate EarlyAtBoth(t: seq<int>, q: int, k: int) {
    && (forall i {:trigger Above(t, i)} :: 0 < i < |t| && i != q && i != k ==> Above(t, i))
    && (0 < q < |t| ==> forall i :: 0 < i < |t| && i != k && Parent(i) == q ==> t[Parent(q)] <= t[i])
  }

  lemma SwapUpBoth(t: seq<int>, q: int, k: int)
    requires 0 < q < |t| && EarlyAtBoth(t, q, k) && t[Parent(q)] > t[q]
    requires 0 < k && k != q && k != Parent(q) && Parent(k) != q && Parent(k) != Parent(q)
    ensures EarlyAtBoth(Swapped(t, Parent(q), q), Parent(q), k)
  {
    var p := Parent(q);
    var t' := Swapped(t, p, q);
    forall i | 0 < i < |t| && i != p && i != k
      ensures Above(t', i)
    {
      if i != q {
        assert Above(t, i);
      }
      if p > 0 {
        assert Above(t, p);
      }
    }
    if p > 0 {
      assert Above(t, p);
      forall i | 0 < i < |t| && i != k && Parent(i) == p
        ensures t'[Parent(p)] <= t'[i]
      {
        if i != q {
          assert Above(t, i);
        }
      }
    }
  }

  lemma {:induction false} PathLater(t: seq<int>, q: int, p: int)
    requires 0 <= p <= q < |t| && OnPath(p, q)
    requires forall i {:trigger Above(t, i)} :: p < i <= q && OnPath(i, q) ==> Above(t, i)
    ensures t[p] <= t[q]
    decreases q
  {
    if p < q {
      assert Above(t, q);
      PathUp(q, q);
      OnPathBelow(p, q);
      PathLater(t, Parent(q), p);
    }
  }

  lemma {:induction false} OnPathBelow(p: int, q: int)
    requires 0 <= p < q && OnPath(p, q)
    ensures p <= Parent(q) && OnPath(p, Parent(q))
  {
    if p > 0 {
      PathUp(p, Parent(q));
    }
  }

  /** As 1 moves up past the parent of entry `k`, which is too early, the grandparent comes down to
      be its parent. */
  lemma {:induction false} PathBeside(t: seq<int>, q: int, k: int)
    requires 0 <= q < |t| && 0 < k < |t| && OnPath(Parent(k), q) && !OnPath(k, q) && Parent(k) != q
    requires EarlyAtBoth(t, q, k) && t[q] == 1 <= t[k] < t[Parent(k)]
    ensures
      var p := Parent(k);
      Ordered(Sifted(t, q)) <==> p == 0 || t[Parent(p)] <= t[k]
    decreases q
  {
    hide Ordered;
    var p, a := Parent(k), Parent(q);
    OnPathLess(p, q);
    OnPathBelow(p, q);
    LaterParent(t, q, p, k);
    var t1 := Swapped(t, a, q);
    assert Sifted(t, q) == Sifted(t1, a);
    if a != p {
      SwapUpBoth(t, q, k);
      PathBeside(t1, a, k);
    } else if p == 0 || t[Parent(p)] <= t[k] {
      Beside(t, q, k);
      SiftedOrdered(t1, p);
    } else {
      var t2 := Swapped(t1, Parent(p), p);
      assert Sifted(t1, p) == Sifted(t2, Parent(p));
      NotOnPath(p, Parent(p));
      NotOnPath(k, Parent(p));
      SiftedOff(t2, Parent(p), p);
      SiftedOff(t2, Parent(p), k);
      Unordered(Sifted(t, q), k);
    }
  }

  lemma {:induction false} OnPathLess(p: int, q: int)
    requires 0 <= q && OnPath(p, q)
    ensures p <= q
    decreases q
  {
    if p != q {
      OnPathLess(p, Parent(q));
    }
  }

  lemma LaterParent(t: seq<int>, q: int, p: int, k: int)
    requires 0 <= p < q < |t| && EarlyAtBoth(t, q, k) && OnPath(p, Parent(q)) && !OnPath(k, q)
    ensures t[p] <= t[Parent(q)]
  {
    var a := Parent(q);
    OnPathLess(p, a);
    PathLater(t, a, p);
  }

  lemma Beside(t: seq<int>, q: int, k: int)
    requires 0 < q < |t| && 0 < k < |t| && q != k && Parent(k) == Parent(q)
    requires EarlyAtBoth(t, q, k) && t[q] == 1 <= t[k] < t[Parent(k)]
    requires var p := Parent(k); p == 0 || t[Parent(p)] <= t[k]
    ensures EarlyAt(Swapped(t, Parent(q), q), Parent(q))
  {
    var p := Parent(q);
    var t' := Swapped(t, p, q);
    forall i | 0 < i < |t| && i != p
      ensures Above(t', i)
    {
      if i != q && i != k {
        assert Above(t, i);
      }
    }
    if p > 0 {
      assert Above(t, p);
      forall i | 0 < i < |t| && Parent(i) == p
        ensures t'[Parent(p)] <= t'[i]
      {
        if i != q && i != k {
          assert Above(t, i);
        }
      }
    }
  }

  /** Order after entry `k` is taken out of the heap and put back with stamp 1. */
  predicate Reinsertable(t: seq<int>, k: int)
    requires 0 < k < |t|
  {
    var p, last := Parent(k), |t| - 1;
    || t[p] <= t[last]
    || (OnPath(p, last) && !OnPath(k, last) && (p > 0 ==> t[Parent(p)] <= t[last]))
  }

  /** When the entry moved into the hole is too early, the order comes back only if 1, moving up,
      brings down an entry early enough to be its parent. */
  lemma ReinsertIff(t: seq<int>, k: int)
    requires Ordered(t) && 0 < k < |t| && 1 <= t[|t| - 1] < t[Parent(k)]
    ensures Ordered(Sifted(Filled(t, k) + [1], |t| - 1)) <==> Reinsertable(t, k)
  {
    hide Ordered, EarlyAtBoth;
    var s, q, p := Filled(t, k) + [1], |t| - 1, Parent(k);
    FilledEarly(t, k);
    BothEarly(t, k);
    if OnPath(k, q) {
      PathThrough(s, q, k);
    } else if OnPath(p, q) {
      PathBeside(s, q, k);
    } else {
      SiftedOff(s, q, k);
      SiftedOff(s, q, p);
      Unordered(Sifted(s, q), k);
    }
  }

  lemma BothEarly(t: seq<int>, k: int)
    requires Ordered(t) && 0 < k < |t| - 1 && t[|t| - 1] < t[Parent(k)]
    ensures EarlyAtBoth(Filled(t, k) + [1], |t| - 1, k)
  {
    var s, q := Filled(t, k) + [1], |t| - 1;
    assert Above(t, k);
    forall i | 0 < i < |s| && i != q && i != k
      ensures Above(s, i)
    {
      assert Above(t, i);
    }
  }

  // ----- Nodes in order -----

  ghost function Stamps(order: seq<Node>): (t: seq<int>)
    reads order`timeStamp
    ensures |t| == |order| && forall i :: 0 <= i < |t| ==> t[i] == order[i].timeStamp
  {
    if order == [] then [] else Stamps(order[..|order| - 1]) + [order[|order| - 1].timeStamp]
  }

  ghost function Members(order: seq<Node>): set<Node> {
    set u | u in order
  }

  function Exchanged(order: seq<Node>, p: int, q: int): seq<Node>
    requires 0 <= p < |order| && 0 <= q < |order|
  {
    order[p := order[q]][q := order[p]]
  }

  lemma ExchangedMembers(order: seq<Node>, p: int, q: int)
    requires 0 <= p < |order| && 0 <= q < |order|
    ensures Members(Exchanged(order, p, q)) == Members(order)
  {
    var order' := Exchanged(order, p, q);
    forall u | u in order
      ensures u in order'
    {
      var i :| 0 <= i < |order| && order[i] == u;
      assert order'[if i == p then q else if i == q then p else i] == u;
    }
  }

  lemma ExchangedStamps(order: seq<Node>, p: int, q: int)
    requires 0 <= p < |order| && 0 <= q < |order|
    ensures Stamps(Exchanged(order, p, q)) == Swapped(Stamps(order), p, q)
  {
    hide Stamps;
  }

  lemma AppendedNode(order: seq<Node>, n: Node)
    ensures Members(order + [n]) == Members(order) + {n}
    ensures Stamps(order + [n]) == Stamps(order) + [n.timeStamp]
  {
  }

  class SndUList {
    var heap: array<Node?>
    var lastEntry: int

    /** The nodes on the heap by position. */
    ghost var order: seq<Node>
    /** All nodes that belong to this list, scheduled or not. */
    ghost var known: set<Node>

    ghost predicate Filling()
      reads this, heap
    {
      && 0 < heap.Length && lastEntry + 1 == |order| <= heap.Length
      && (forall i :: 0 <= i < |order| ==> heap[i] == order[i])
      && (forall i :: 0 <= i < |order| ==> order[i] in known)
    }

    /** Positions are the exact inverse of the heap array. */
    ghost predicate Valid()
      reads this, heap, known
    {
      && Filling()
      && (forall i :: 0 <= i < |order| ==> order[i].heapLoc == i)
      && (forall n <- known :: n.heapLoc == -1 || (0 <= n.heapLoc < |order| && order[n.heapLoc] == n))
    }

    ghost predicate InOrder()
      reads this`order, order`timeStamp
    {
      Ordered(Stamps(order))
    }

    /** As `Valid`, but node `n` at position `q` does not know its position. */
    ghost predicate Moving(n: Node, q: int)
      reads this, heap, known
    {
      && Filling() && 0 <= q < |order| && order[q] == n
      && (forall i :: 0 <= i < |order| && i != q ==> order[i] != n && order[i].heapLoc == i)
      && (forall m <- known :: m != n ==> m.heapLoc == -1 || (0 <= m.heapLoc < |order| && order[m.heapLoc] == m))
    }

    constructor ()
      ensures Valid() && order == [] && known == {}
      ensures fresh(heap) && heap.Length == 4096
    {
      heap := new Node?[4096](_ => null);
      lastEntry := -1;
      order, known := [], {};
    }

    /** A socket that is not scheduled yet comes to belong to this list. */
    ghost method Register(n: Node)
      requires Valid() && n.heapLoc == -1
      modifies this`known
      ensures Valid() && known == old(known) + {n}
    {
      known := known + {n};
    }

    /** Exchange the entries at `p` and `q`, where the moving node is; the other one learns its
        new position. */
    method Exchange(p: int, q: int, ghost n: Node)
      requires Moving(n, q) && 0 <= p < |order| && p != q
      modifies this`order, heap, known`heapLoc
      ensures Moving(n, p) && order == Exchanged(old(order), p, q) && n.heapLoc == old(n.heapLoc)
      ensures Stamps(order) == Swapped(old(Stamps(order)), p, q) && Members(order) == Members(old(order))
    {
      hide Stamps;
      ghost var was := order;
      ExchangedMembers(order, p, q);
      ExchangedStamps(order, p, q);
      var t := heap[p];
      heap[p] := heap[q];
      heap[q] := t;
      t.heapLoc := q;
      order := Exchanged(was, p, q);
    }

    /** Move the node at `start` towards the root while it is earlier than its parent. */
    method SiftUp(start: int, ghost n: Node) returns (q: int)
      requires Moving(n, start)
      modifies this`order, heap, known`heapLoc
      ensures Moving(n, q) && Members(order) == Members(old(order)) && n.heapLoc == old(n.heapLoc)
      ensures Stamps(order) == Sifted(old(Stamps(order)), start)
    {
      hide Stamps;
      q := start;
      var p := q;
      while p != 0
        invariant Moving(n, q) && p == q && Members(order) == Members(old(order)) && n.heapLoc == old(n.heapLoc)
        invariant Sifted(Stamps(order), q) == Sifted(old(Stamps(order)), start)
        modifies this`order, heap, known`heapLoc
        decreases q
      {
        p := (q - 1) / 2;
        if heap[p].timeStamp > heap[q].timeStamp {
          Exchange(p, q, n);
          q := p;
        } else {
          break;
        }
      }
    }

    /** insert_: schedule a node that is not on the heap yet. */
    method InsertNode(ts: int, n: Node)
      requires Valid() && n in known && lastEntry + 1 < heap.Length
      modifies this`lastEntry, this`order, heap, known
      ensures Valid()
      ensures 0 <= old(n.heapLoc) ==> order == old(order) && forall m <- known :: m.timeStamp == old(m.timeStamp)
      ensures old(n.heapLoc) < 0 ==>
                && Members(order) == Members(old(order)) + {n} && n.timeStamp == ts
                && Stamps(order) == Sifted(old(Stamps(order)) + [ts], |old(order)|)
                && (old(InOrder()) ==> InOrder())
                && forall m <- known :: m != n ==> m.timeStamp == old(m.timeStamp)
    {
      hide Ordered, EarlyAt, Stamps, Members, Sifted, SndUList.Valid, SndUList.Moving, SndUList.Filling;
      if n.heapLoc >= 0 {
        return;
      }
      ghost var t := Stamps(order);
      if Ordered(t) {
        Appended(t, ts);
        SiftedOrdered(t + [ts], |t|);
      }
      Append(ts, n);
      var q := SiftUp(lastEntry, n);
      Settle(n, q);
    }

    /** A new last entry. */
    method Append(ts: int, n: Node)
      requires Valid() && n in known && n.heapLoc < 0 && lastEntry + 1 < heap.Length
      modifies this`lastEntry, this`order, heap, n`timeStamp
      ensures Moving(n, lastEntry) && n.timeStamp == ts && lastEntry == |old(order)|
      ensures Stamps(order) == old(Stamps(order)) + [ts] && Members(order) == Members(old(order)) + {n}
    {
      hide Stamps;
      ghost var was := order;
      lastEntry := lastEntry + 1;
      heap[lastEntry] := n;
      n.timeStamp := ts;
      order := order + [n];
      AppendedNode(was, n);
    }

    method Settle(n: Node, q: int)
      requires Moving(n, q)
      modifies n`heapLoc
      ensures Valid()
      ensures n.heapLoc == q
    {
      n.heapLoc := q;
    }

    /** insert: as `InsertNode`, doubling the array when it is full. */
    method Insert(ts: int, n: Node)
      requires Valid() && n in known
      modifies this`heap, this`lastEntry, this`order, heap, known
      ensures Valid()
      ensures
        if |old(order)| == old(heap.Length) then fresh(heap) && heap.Length == 2 * old(heap.Length)
        else heap == old(heap)
      ensures 0 <= old(n.heapLoc) ==> order == old(order) && forall m <- known :: m.timeStamp == old(m.timeStamp)
      ensures old(n.heapLoc) < 0 ==>
                && Members(order) == Members(old(order)) + {n} && n.timeStamp == ts
                && Stamps(order) == Sifted(old(Stamps(order)) + [ts], |old(order)|)
                && (old(InOrder()) ==> InOrder())
                && forall m <- known :: m != n ==> m.timeStamp == old(m.timeStamp)
    {
      hide Ordered, Stamps, Members, Sifted;
      if lastEntry == heap.Length - 1 {
        var temp := new Node?[heap.Length * 2](_ => null);
        forall i | 0 <= i < heap.Length {
          temp[i] := heap[i];
        }
        heap := temp;
      }
      InsertNode(ts, n);
    }

    /** Fill the hole at `k` with the last entry, which learns its new position. */
    method FillHole(k: int, n: Node)
      requires Valid() && 0 <= k < |order| && order[k] == n
      modifies this`lastEntry, this`order, heap, known`heapLoc
      ensures Left(n) && n.heapLoc == k && |order| == |old(order)| - 1
      ensures Stamps(order) == Filled(old(Stamps(order)), k) && Members(order) == Members(old(order)) - {n}
    {
      hide Stamps, Members, Filled;
      FilledMembers(order, k);
      FilledStamps(order, k);
      heap[k] := heap[lastEntry];
      lastEntry := lastEntry - 1;
      heap[k].heapLoc := k;
      order := FilledNodes(order, k);
    }

    /** All nodes on the heap know their position; node `n` has left it. */
    ghost predicate Left(n: Node)
      reads this, heap, known
    {
      && Filling() && n !in order
      && (forall i :: 0 <= i < |order| ==> order[i].heapLoc == i)
      && (forall m <- known :: m != n ==> m.heapLoc == -1 || (0 <= m.heapLoc < |order| && order[m.heapLoc] == m))
    }

    /** Exchange two entries; both learn their new positions. */
    method Sink(p: int, q: int, ghost n: Node)
      requires Left(n) && 0 <= p < |order| && 0 <= q < |order| && p != q
      modifies this`order, heap, known`heapLoc
      ensures Left(n) && order == Exchanged(old(order), p, q) && n.heapLoc == old(n.heapLoc)
      ensures Stamps(order) == Swapped(old(Stamps(order)), p, q) && Members(order) == Members(old(order))
    {
      hide Stamps;
      ghost var was := order;
      ExchangedMembers(order, p, q);
      ExchangedStamps(order, p, q);
      var t := heap[p];
      heap[p] := heap[q];
      heap[p].heapLoc := p;
      heap[q] := t;
      heap[q].heapLoc := q;
      order := Exchanged(was, p, q);
    }

    /** Move the entry at `k` away from the root while a child is earlier. */
    method SiftDown(k: int, ghost n: Node, ghost late: bool, ghost stays: bool)
      requires Left(n) && 0 <= k <= |order|
      requires late ==> LateAt(Stamps(order), k)
      requires stays ==> AtRest(Stamps(order), k)
      modifies this`order, heap, known`heapLoc
      ensures Left(n) && Members(order) == Members(old(order)) && n.heapLoc == old(n.heapLoc) && |order| == |old(order)|
      ensures late ==> InOrder()
      ensures stays ==> order == old(order)
    {
      hide LateAt, Stamps, Members, Ordered;
      var q := k;
      var p := q * 2 + 1;
      while p <= lastEntry
        invariant Left(n) && Members(order) == Members(old(order)) && n.heapLoc == old(n.heapLoc)
        invariant lastEntry + 1 == |order| == |old(order)| && 0 <= q && p == q * 2 + 1
        invariant late ==> LateAt(Stamps(order), q)
        invariant stays ==> q == k && order == old(order) && AtRest(Stamps(order), k)
        modifies this`order, heap, known`heapLoc
        decreases |order| - q
      {
        p := EarlierChild(p, q, n);
        var down := LaterThan(q, p, n);
        if down {
          if late {
            SwapDown(Stamps(order), q, p);
          }
          Sink(p, q, n);
          q := p;
          p := q * 2 + 1;
        } else {
          break;
        }
      }
      if late {
        LateDone(Stamps(order), q);
      }
    }

    /** The earlier child of `q`. */
    method EarlierChild(first: int, ghost q: int, ghost n: Node) returns (p: int)
      requires Left(n) && 0 <= q && first == q * 2 + 1 <= lastEntry
      ensures 0 <= q < p < |order| && Parent(p) == q
      ensures
        var t := Stamps(order);
        forall i :: 0 < i < |t| && Parent(i) == q ==> t[p] <= t[i]
    {
      hide Stamps;
      p := first;
      if p + 1 <= lastEntry && heap[p].timeStamp > heap[p + 1].timeStamp {
        p := p + 1;
      }
    }

    method LaterThan(q: int, p: int, ghost n: Node) returns (later: bool)
      requires Left(n) && 0 <= q < |order| && 0 <= p < |order|
      ensures later <==> Stamps(order)[p] < Stamps(order)[q]
    {
      hide Stamps;
      later := heap[q].timeStamp > heap[p].timeStamp;
    }

    /** Order after the removal of entry `k`: the last entry must not be earlier than the parent of
        the hole that it fills. */
    ghost predicate KeepsOrder(k: int)
      requires 0 <= k < |order|
      reads this`order, order`timeStamp
    {
      k > 0 ==> Stamps(order)[Parent(k)] <= Stamps(order)[|order| - 1]
    }

    /** remove_: take a node off the heap. */
    method RemoveNode(n: Node)
      requires Valid() && n in known
      modifies this`lastEntry, this`order, heap, known`heapLoc
      ensures Valid() && n.heapLoc == -1
      ensures old(n.heapLoc) < 0 ==> order == old(order)
      ensures 0 <= old(n.heapLoc) ==>
                && lastEntry == old(lastEntry) - 1 && Members(order) == Members(old(order)) - {n}
                && (old(InOrder()) ==> (InOrder() <==> old(KeepsOrder(n.heapLoc))))
                && (old(InOrder() && !KeepsOrder(n.heapLoc)) ==> Stamps(order) == old(Filled(Stamps(order), n.heapLoc)))
    {
      hide Ordered, LateAt, Stamps, Members, FilledNodes, Filled, AtRest, SndUList.Left;
      if n.heapLoc >= 0 {
        ghost var k := n.heapLoc;
        AfterFill(Stamps(order), k);
        ghost var ordered, keeps := InOrder(), KeepsOrder(k);
        FillHole(n.heapLoc, n);
        SiftDown(n.heapLoc, n, ordered && keeps, ordered && !keeps);
        Leave(n);
      }
    }

    method Leave(n: Node)
      requires Left(n)
      modifies n`heapLoc
      ensures Valid() && n.heapLoc == -1
    {
      n.heapLoc := -1;
    }

    /** Schedule a socket as soon as possible. */
    method Update(n: Node, reschedule: bool)
      requires Valid() && n in known && (n.heapLoc < 0 ==> lastEntry + 1 < heap.Length)
      modifies this`lastEntry, this`order, heap, known
      ensures Valid() && Members(order) == Members(old(order)) + {n}
      ensures n.timeStamp == if old(n.heapLoc) < 0 || reschedule then 1 else old(n.timeStamp)
      ensures forall m <- known :: m != n ==> m.timeStamp == old(m.timeStamp)
      ensures old(InOrder()) && (0 <= old(n.heapLoc) ==> forall m <- old(order) :: 1 <= old(m.timeStamp)) ==>
                (InOrder() <==> (reschedule && 0 < old(n.heapLoc) ==> old(Reinsertable(Stamps(order), n.heapLoc))))
    {
      hide Ordered, Stamps, Sifted, Filled, Reinsertable;
      if n.heapLoc >= 0 {
        if !reschedule {
          return;
        }
        if n.heapLoc == 0 {
          ghost var t := Stamps(order);
          n.timeStamp := 1;
          assert Stamps(order) == t[0 := 1];
          RootFirst(t);
          return;
        }
        Reschedule(n);
      } else {
        InsertNode(1, n);
      }
    }

    /** Take a socket off the heap and put it back as early as possible. */
    method Reschedule(n: Node)
      requires Valid() && n in known && 0 < n.heapLoc
      modifies this`lastEntry, this`order, heap, known
      ensures Valid() && Members(order) == Members(old(order)) + {n} && n.timeStamp == 1
      ensures forall m <- known :: m != n ==> m.timeStamp == old(m.timeStamp)
      ensures old(InOrder()) && (forall m <- old(order) :: 1 <= old(m.timeStamp)) ==>
                (InOrder() <==> old(Reinsertable(Stamps(order), n.heapLoc)))
    {
      hide Ordered, Stamps, Sifted, Filled, Reinsertable;
      RescheduleOrder(Stamps(order), n.heapLoc);
      RemoveNode(n);
      InsertNode(1, n);
    }

    /** Take the first socket off the schedule when its time has come: the earliest of all. */
    method TakeFirst(now: int) returns (n: Node?)
      requires Valid()
      modifies this`lastEntry, this`order, heap, known`heapLoc
      ensures Valid()
      ensures n == null <==> |old(order)| == 0 || now < old(Stamps(order))[0]
      ensures n == null ==> order == old(order)
      ensures n != null ==> n in old(order) && n.timeStamp <= now && Members(order) == Members(old(order)) - {n}
      ensures n != null ==> n.heapLoc == -1 && lastEntry == old(lastEntry) - 1
      ensures n != null && old(InOrder()) ==> InOrder() && forall m <- old(order) :: n.timeStamp <= m.timeStamp
    {
      hide Ordered, Stamps, Members;
      if -1 == lastEntry {
        return null;
      }
      if now < heap[0].timeStamp {
        return null;
      }
      if InOrder() {
        forall m | m in order
          ensures heap[0].timeStamp <= m.timeStamp
        {
          RootIsEarliest(Stamps(order), m.heapLoc);
        }
      }
      n := heap[0];
      RemoveNode(n);
    }

    /** pop: serve the earliest socket that is due.  `alive` says whether it is still connected,
        `size` what packData returns for it and `next` when it wants to be served again, 0 if it
        does not. */
    method Pop(now: int, alive: bool, size: int, next: nat) returns (ok: bool, ghost n: Node?)
      requires Valid()
      modifies this`lastEntry, this`order, heap, known
      ensures Valid()
      ensures n == null <==> |old(order)| == 0 || now < old(Stamps(order))[0]
      ensures ok <==> n != null && alive && size > 0
      ensures n == null ==> order == old(order)
      ensures n != null ==>
                && n in old(order) && old(n.timeStamp) <= now
                && Members(order) == (if ok && next > 0 then Members(old(order)) else Members(old(order)) - {n})
                && n.timeStamp == (if ok && next > 0 then next else old(n.timeStamp))
                && (old(InOrder()) ==> InOrder() && forall m <- old(order) :: old(n.timeStamp) <= old(m.timeStamp))
      ensures forall m <- known :: m != n ==> m.timeStamp == old(m.timeStamp)
    {
      hide Ordered, Stamps, Sifted;
      var u := TakeFirst(now);
      n := u;
      ok := false;
      if u == null {
        return;
      }
      if !alive || size <= 0 {
        return;
      }
      if next > 0 {
        InsertNode(next, u);
      }
      ok := true;
    }
  }

  /** Schedule sockets one after the other: time stamps in heap order keep the order in which they
      are inserted. */
  method Schedule(stamps: seq<int>) returns (l: SndUList)
    requires Ordered(stamps)
    ensures fresh(l) && fresh(l.heap) && fresh(l.known) && l.Valid() && Stamps(l.order) == stamps
  {
    hide Stamps, Ordered, Sifted, Members, SndUList.Valid, SndUList.InOrder;
    l := new SndUList();
    NoStamps(l.order);
    for i := 0 to |stamps|
      invariant fresh(l) && fresh(l.heap) && fresh(l.known) && l.Valid() && Stamps(l.order) == stamps[..i]
    {
      var n := new Node();
      l.Register(n);
      l.Insert(stamps[i], n);
      InPlace(stamps, i);
    }
    assert stamps[..|stamps|] == stamps;
  }

  lemma NoStamps(order: seq<Node>)
    requires order == []
    ensures Stamps(order) == []
  {
  }

  lemma InPlace(t: seq<int>, i: nat)
    requires Ordered(t) && i < |t|
    ensures Sifted(t[..i] + [t[i]], i) == t[..i + 1]
  {
    assert t[..i] + [t[i]] == t[..i + 1];
    if i > 0 {
      assert Above(t, i);
    }
  }

  /** Seven sockets scheduled one after the other, of which the fourth is removed: the last one
      fills the hole below a parent that is due later. */
  method InteriorRemovalBreaksOrder() returns (l: SndUList)
    ensures fresh(l) && fresh(l.heap) && fresh(l.known) && l.Valid() && !l.InOrder()
  {
    hide Stamps, Filled, Sifted;
    var stamps := [1, 10, 2, 11, 12, 3, 4];
    l := Schedule(stamps);
    assert |l.order| == 7;
    l.RemoveNode(l.heap[3]);
  }

  lemma RescheduleOrder(t: seq<int>, k: int)
    requires 0 < k < |t|
    ensures t[Parent(k)] <= t[|t| - 1] ==> Reinsertable(t, k)
    ensures Ordered(t) && (forall i :: 0 <= i < |t| ==> 1 <= t[i]) && t[|t| - 1] < t[Parent(k)] ==>
              (Ordered(Sifted(Filled(t, k) + [1], |t| - 1)) <==> Reinsertable(t, k))
  {
    hide Ordered;
    if Ordered(t) && (forall i :: 0 <= i < |t| ==> 1 <= t[i]) && t[|t| - 1] < t[Parent(k)] {
      ReinsertIff(t, k);
    }
  }

  /** What filling the hole at `k` does to the order. */
  lemma AfterFill(t: seq<int>, k: int)
    requires 0 <= k < |t|
    ensures
      Ordered(t) ==>
        if k > 0 ==> t[Parent(k)] <= t[|t| - 1] then LateAt(Filled(t, k), k)
        else AtRest(Filled(t, k), k) && !Ordered(Filled(t, k))
  {
    hide Ordered, LateAt, Filled, AtRest;
    if Ordered(t) {
      if k > 0 ==> t[Parent(k)] <= t[|t| - 1] {
        FilledLate(t, k);
      } else {
        FilledEarly(t, k);
      }
    }
  }

  lemma FilledStamps(order: seq<Node>, k: int)
    requires 0 <= k < |order|
    ensures Stamps(FilledNodes(order, k)) == Filled(Stamps(order), k)
  {
    hide Stamps;
    var t, order' := Stamps(order), FilledNodes(order, k);
    var t' := Filled(t, k);
    assert |t'| == |order'|;
    forall i | 0 <= i < |order'|
      ensures t'[i] == order'[i].timeStamp
    {
    }
  }

  lemma FilledMembers(order: seq<Node>, k: int)
    requires 0 <= k < |order| && forall i :: 0 <= i < |order| ==> order[i].heapLoc == i
    ensures Members(FilledNodes(order, k)) == Members(order) - {order[k]}
  {
    var order' := FilledNodes(order, k);
    forall u | u in order && u != order[k]
      ensures u in order'
    {
      var i :| 0 <= i < |order| && order[i] == u;
      assert order'[if i == |order| - 1 then k else i] == u;
    }
  }

  function FilledNodes(order: seq<Node>, k: int): seq<Node>
    requires 0 <= k < |order|
  {
    order[k := order[|order| - 1]][..|order| - 1]
  }
}
