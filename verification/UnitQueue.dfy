/** The pool of packet units shared by all receive buffers of one UDP port: CUnitQueue. */
module UnitQueue {
  import opened Rings
  import opened Stream

  /** A unit holds one arriving packet.  `flag`: 0 free, 1 occupied, 2 read as part of a message
      but not freed. */
  class Unit {
    var flag: int
    var chunk: Chunk

    constructor ()
      ensures flag == 0
    {
      flag, chunk := 0, Chunk([], 0);
    }
  }

  /** A block of units laid out one behind the other; the blocks form a cycle. */
  class Entry {
    const units: seq<Unit>
    var next: Entry

    constructor (units: seq<Unit>)
      ensures this.units == units && next == this
    {
      this.units := units;
      next := this;
    }
  }

  ghost predicate Cycle(entries: seq<Entry>)
    reads entries
  {
    forall i :: 0 <= i < |entries| ==> entries[i].next == After(entries, i)
  }

  /** The units as a set. */
  ghost function Members(units: seq<Unit>): set<Unit> {
    set u | u in units
  }

  /** The units of the first `n` blocks. */
  ghost function Pool(entries: seq<Entry>, n: nat): set<Unit>
    requires n <= |entries|
  {
    if n == 0 then {} else Pool(entries, n - 1) + Members(entries[n - 1].units)
  }

  /** All blocks have the same positive size and no unit occurs twice. */
  ghost predicate Apart(entries: seq<Entry>, chunkSize: nat) {
    forall n {:trigger Block(entries, chunkSize, n)} :: 0 <= n < |entries| ==> Block(entries, chunkSize, n)
  }

  ghost predicate Block(entries: seq<Entry>, chunkSize: nat, n: nat)
    requires n < |entries|
  {
    && |entries[n].units| == chunkSize && Distinct(entries[n].units)
    && Members(entries[n].units) !! Pool(entries, n)
  }

  lemma {:induction false} PoolHas(entries: seq<Entry>, n: nat, i: nat, k: nat)
    requires i < n <= |entries| && k < |entries[i].units|
    ensures entries[i].units[k] in Pool(entries, n)
  {
    if i < n - 1 {
      PoolHas(entries, n - 1, i, k);
    }
  }

  lemma {:induction false} PoolGrows(entries: seq<Entry>, e: Entry, n: nat)
    requires n <= |entries|
    ensures Pool(entries + [e], n) == Pool(entries, n)
  {
    if n > 0 {
      PoolGrows(entries, e, n - 1);
    }
  }

  lemma PoolSnoc(entries: seq<Entry>, e: Entry)
    ensures Pool(entries + [e], |entries| + 1) == Pool(entries, |entries|) + Members(e.units)
  {
    PoolGrows(entries, e, |entries|);
  }

  lemma {:induction false} MembersSize(units: seq<Unit>)
    requires Distinct(units)
    ensures |Members(units)| == |units|
  {
    if units != [] {
      var front, u := units[..|units| - 1], units[|units| - 1];
      MembersSize(front);
      assert Members(units) == Members(front) + {u};
      assert u !in front;
    }
  }

  class UnitQueue {
    var qEntry: Entry
    var currQueue: Entry
    var lastQueue: Entry
    /** Index in the current block of the unit looked at next. */
    var avail: nat
    var size: nat
    var count: int

    ghost var entries: seq<Entry>
    ghost var chunkSize: nat
    /** Where the current block is in the cycle. */
    ghost var at: nat
    /** All units of the pool. */
    ghost var all: set<Unit>
    /** The units that sit in some receive buffer. */
    ghost var used: set<Unit>

    ghost predicate Shape()
      reads this, entries
    {
      && at < |entries| && Distinct(entries) && Cycle(entries)
      && 0 < chunkSize && Apart(entries, chunkSize)
      && qEntry == entries[0] && lastQueue == entries[|entries| - 1] && currQueue == entries[at]
      && avail < chunkSize
      && all == Pool(entries, |entries|) && size == |all|
    }

    /** A unit is flagged exactly when it sits in a buffer, and all those are counted. */
    ghost predicate Counted()
      reads this`all, this`used, this`count, all
    {
      && used <= all && count == |used|
      && forall u <- all :: u.flag != 0 <==> u in used
    }

    constructor (units: seq<Unit>)
      requires units != [] && Distinct(units) && forall u <- units :: u.flag == 0
      ensures Shape() && Counted() && used == {} && all == Members(units)
      ensures |entries| == 1 && entries[0].units == units && at == 0 && avail == 0 && fresh(entries[0])
    {
      var e := new Entry(units);
      qEntry, currQueue, lastQueue, avail := e, e, e, 0;
      size, count := |units|, 0;
      entries, chunkSize, at, all, used := [e], |units|, 0, Members(units), {};
      new;
      MembersSize(units);
      PoolSnoc([], e);
      assert [] + [e] == [e];
    }

    /** A receive buffer takes a unit. */
    method Occupy(unit: Unit)
      requires Counted() && unit in all && unit !in used
      modifies this`count, this`used, unit`flag
      ensures Counted() && used == old(used) + {unit} && unit.flag == 1
    {
      unit.flag := 1;
      count := count + 1;
      used := used + {unit};
    }

    /** A receive buffer gives a unit back. */
    method Release(unit: Unit)
      requires Counted() && unit in used
      modifies this`count, this`used, unit`flag
      ensures Counted() && used == old(used) - {unit} && unit.flag == 0
    {
      unit.flag := 0;
      count := count - 1;
      used := used - {unit};
    }

    /** Count the flagged units: what the counter already says. */
    method Recount() returns (busy: int)
      requires Shape() && Counted()
      ensures busy == count
    {
      hide Distinct, Cycle, Apart, Members, Block, Pool;
      busy := 0;
      var p := qEntry;
      ghost var i := 0;
      NoPool(entries, used);
      while true
        invariant 0 <= i < |entries| && p == entries[i]
        invariant busy == |Pool(entries, i) * used|
        decreases |entries| - i
      {
        var n := CountBlock(p, i);
        busy := busy + n;
        SameNode(entries, i, |entries| - 1);
        if p == lastQueue {
          assert all * used == used;
          return;
        }
        NextInCycle(entries, i);
        p := p.next;
        i := i + 1;
      }
    }

    /** Count the flagged units of block `i`. */
    method CountBlock(p: Entry, ghost i: nat) returns (busy: int)
      requires Shape() && Counted() && i < |entries| && p == entries[i]
      ensures |Pool(entries, i + 1) * used| == |Pool(entries, i) * used| + busy
    {
      hide Distinct, Cycle, Apart, Block, Members, Pool, Seen;
      busy := 0;
      NoneSeen(entries, i);
      for k := 0 to |p.units|
        invariant |Seen(entries, i, k) * used| == |Pool(entries, i) * used| + busy
      {
        var u := p.units[k];
        PoolHas(entries, |entries|, i, k);
        FreshMember(entries, chunkSize, i, k);
        OneMore(Seen(entries, i, k), used, u);
        if u.flag != 0 {
          busy := busy + 1;
        }
      }
      AllSeen(entries, i);
    }

    /** Recount, and add a block unless less than nine tenths of the units are occupied.  The
        quotient of the source is compared without rounding. */
    method Increase() returns (grown: bool)
      requires Shape() && Counted()
      modifies this, entries
      ensures Shape() && Counted()
      ensures used == old(used) && count == old(count) && at == old(at) && avail == old(avail)
      ensures chunkSize == old(chunkSize) && old(all) <= all
      ensures grown <==> old(count) * 10 >= old(size) * 9
      ensures !grown ==> entries == old(entries)
      ensures grown ==> |entries| == |old(entries)| + 1 && entries[..|entries| - 1] == old(entries)
      ensures grown ==> fresh(entries[|entries| - 1]) && fresh(entries[|entries| - 1].units)
    {
      hide Distinct, Cycle, Apart, Block, Pool;
      count := Recount();
      if count * 10 < size * 9 {
        return false;
      }
      BlockSize(entries, chunkSize, 0);
      var units := MakeUnits(|qEntry.units|);
      var e := new Entry(units);
      Append(e, Members(units));
      return true;
    }

    /** Link a new block in behind the last one. */
    method Append(e: Entry, ghost made: set<Unit>)
      requires Shape() && Counted()
      requires |e.units| == chunkSize && Distinct(e.units) && made == Members(e.units)
      requires e !in entries && made !! all && forall u <- made :: u.flag == 0
      modifies e`next, lastQueue`next, this`lastQueue, this`entries, this`size, this`all
      ensures Shape() && Counted() && entries == old(entries) + [e] && old(all) <= all
    {
      hide Distinct, Cycle, Apart, Block, Members, Pool, UnitQueue.Counted;
      Link(lastQueue, e, qEntry, entries);
      Enlarge(e, made);
    }

    /** Count a block that has been linked in. */
    method Enlarge(e: Entry, ghost made: set<Unit>)
      requires at < |entries| && Distinct(entries) && Cycle(entries + [e]) && 0 < chunkSize && Apart(entries, chunkSize)
      requires qEntry == entries[0] && currQueue == entries[at] && avail < chunkSize
      requires all == Pool(entries, |entries|) && size == |all| && Counted()
      requires |e.units| == chunkSize && Distinct(e.units) && made == Members(e.units)
      requires e !in entries && made !! all && forall u <- made :: u.flag == 0
      modifies this`lastQueue, this`entries, this`size, this`all
      ensures Shape() && Counted() && entries == old(entries) + [e] && old(all) <= all
    {
      hide Distinct, Cycle, Apart, Block, Members, Pool;
      ghost var was := entries;
      MembersSize(e.units);
      assert |all + made| == |all| + |made|;
      PoolSnoc(was, e);
      LastAppend(was, e, chunkSize);
      DistinctAppend(was, e);
      lastQueue := e;
      entries := was + [e];
      size := size + |e.units|;
      all := all + made;
    }

    /** Hand out a free unit, enlarging a pool that is more than nine tenths full.  The search
        passes over the last unit of every block and over those units of the block it starts in
        that lie before the unit looked at last, except the first. */
    method GetNextAvailUnit() returns (r: Unit?)
      requires Shape() && Counted()
      modifies this, entries
      ensures Shape() && Counted() && used == old(used) && old(all) <= all
      ensures old(count) * 10 <= old(size) * 9 && r != null ==> entries == old(entries)
      ensures r != null ==> r in all && r !in used && r.flag == 0
      ensures r != null ==> avail < |entries[at].units| && r == entries[at].units[avail]
      ensures r != null ==> FoundAt(entries, used, old(at), old(avail), at, avail)
      ensures r == null <==>
              old(count) * 10 <= old(size) * 9 && NoneFound(old(entries), old(used), old(at), old(avail))
    {
      hide Distinct, Cycle, Apart, Block, Members, Pool, NoneFound, FoundAt;
      var grown := false;
      if count * 10 > size * 9 {
        grown := Increase();
        NewBlockFound(old(entries), entries, chunkSize, used, at, avail);
      }
      if count >= size {
        FullPool(entries, used, all, at, avail);
        return null;
      }
      r := Search();
      if r == null {
        var more := Increase();
      }
    }

    /** Go once round the blocks. */
    method Search() returns (r: Unit?)
      requires Shape() && Counted()
      modifies this`currQueue, this`avail, this`at
      ensures Shape() && Counted()
      ensures r != null ==> r in all && r !in used && avail < |entries[at].units| && r == entries[at].units[avail]
      ensures r != null ==> FoundAt(entries, used, old(at), old(avail), at, avail)
      ensures r == null <==> NoneFound(entries, used, old(at), old(avail))
    {
      hide Distinct, Cycle, Apart, Members, Pool, BlockBusy, FirstFree, UnitQueue.Counted;
      var entrance := currQueue;
      ghost var turns := 0;
      while true
        invariant 0 <= turns < |entries| && Shape() && Counted()
        invariant at == Turn(old(at), turns, |entries|) && avail == if turns == 0 then old(avail) else 0
        invariant forall s :: 0 <= s < turns ==>
                    BlockBusy(entries[Turn(old(at), s, |entries|)].units, used, if s == 0 then old(avail) else 0)
        modifies this`currQueue, this`avail, this`at
        decreases |entries| - turns
      {
        BlockSize(entries, chunkSize, at);
        r := ScanBlock();
        if r != null {
          assert FoundAfter(entries, used, old(at), old(avail), at, avail, turns);
          return;
        }
        NextBlock();
        turns := turns + 1;
        SameNode(entries, at, old(at));
        if currQueue == entrance {
          AllTurned(entries, used, old(at), old(avail));
          return;
        }
      }
    }

    /** Go on to the next block. */
    method NextBlock()
      requires Shape()
      modifies this`currQueue, this`avail, this`at
      ensures Shape() && at == (if old(at) + 1 < |entries| then old(at) + 1 else 0) && avail == 0
    {
      hide Distinct, Cycle, Apart, Pool;
      NextInCycle(entries, at);
      currQueue := currQueue.next;
      avail := 0;
      at := if at + 1 < |entries| then at + 1 else 0;
    }

    /** The search within the current block. */
    method ScanBlock() returns (r: Unit?)
      requires Shape() && Counted() && |currQueue.units| == chunkSize
      modifies this`avail
      ensures Shape() && Counted()
      ensures r != null ==> r in all && r !in used && r == currQueue.units[avail]
      ensures r != null ==> FirstFree(currQueue.units, used, old(avail), avail)
      ensures r == null <==> BlockBusy(currQueue.units, used, old(avail))
    {
      hide Distinct, Cycle, Apart, Members, Pool;
      ghost var from := avail;
      var sentinel := |currQueue.units| - 1;
      forall k | 0 <= k < chunkSize
        ensures currQueue.units[k] in all
      {
        PoolHas(entries, |entries|, at, k);
      }
      while avail != sentinel
        invariant Shape() && Counted() && from <= avail <= sentinel
        invariant forall k :: from <= k < avail ==> currQueue.units[k] in used
        decreases sentinel - avail
      {
        if currQueue.units[avail].flag == 0 {
          return currQueue.units[avail];
        }
        avail := avail + 1;
      }
      if currQueue.units[0].flag == 0 {
        avail := 0;
        return currQueue.units[0];
      }
      return null;
    }
  }

  /** All units of a block that a search from unit `from` looks at are occupied. */
  ghost predicate BlockBusy(units: seq<Unit>, used: set<Unit>, from: nat) {
    forall k :: 0 <= k < |units| && (k == 0 || from <= k < |units| - 1) ==> units[k] in used
  }

  /** A search of this block from unit `from` comes to free unit `k` first: the last unit is passed
      over, and the first one looked at when nothing else is free. */
  ghost predicate FirstFree(units: seq<Unit>, used: set<Unit>, from: nat, k: nat) {
    && k < |units| && units[k] !in used
    && (|| (from <= k < |units| - 1 && forall j :: from <= j < k ==> units[j] in used)
        || (k == 0 && forall j :: from <= j < |units| - 1 ==> units[j] in used))
  }

  /** A search from unit `avail` of block `at` comes to unit `avail'` of block `at'` first. */
  ghost predicate FoundAt(entries: seq<Entry>, used: set<Unit>, at: nat, avail: nat, at': nat, avail': nat) {
    exists turns :: FoundAfter(entries, used, at, avail, at', avail', turns)
  }

  ghost predicate FoundAfter(entries: seq<Entry>, used: set<Unit>, at: nat, avail: nat, at': nat, avail': nat,
      turns: nat)
  {
    && at < |entries| && turns < |entries| && at' == Turn(at, turns, |entries|)
    && (forall s :: 0 <= s < turns ==>
          BlockBusy(entries[Turn(at, s, |entries|)].units, used, if s == 0 then avail else 0))
    && FirstFree(entries[at'].units, used, if turns == 0 then avail else 0, avail')
  }

  ghost predicate NoneFound(entries: seq<Entry>, used: set<Unit>, at: nat, avail: nat) {
    forall i :: 0 <= i < |entries| ==> BlockBusy(entries[i].units, used, if i == at then avail else 0)
  }

  /** The block reached from block `at` after `turns` steps. */
  function Turn(at: nat, turns: nat, n: nat): int {
    if at + turns < n then at + turns else at + turns - n
  }

  lemma AllTurned(entries: seq<Entry>, used: set<Unit>, at: nat, avail: nat)
    requires at < |entries|
    requires forall s :: 0 <= s < |entries| ==>
               BlockBusy(entries[Turn(at, s, |entries|)].units, used, if s == 0 then avail else 0)
    ensures NoneFound(entries, used, at, avail)
  {
    hide BlockBusy;
    forall i | 0 <= i < |entries|
      ensures BlockBusy(entries[i].units, used, if i == at then avail else 0)
    {
      var s := if i >= at then i - at else i - at + |entries|;
      assert Turn(at, s, |entries|) == i;
    }
  }

  lemma FullPool(entries: seq<Entry>, used: set<Unit>, all: set<Unit>, at: nat, avail: nat)
    requires used <= all && |used| >= |all| && all == Pool(entries, |entries|)
    ensures NoneFound(entries, used, at, avail)
  {
    hide Pool;
    assert |all - used| == |all| - |used|;
    assert all - used == {};
    forall i, k | 0 <= i < |entries| && 0 <= k < |entries[i].units|
      ensures entries[i].units[k] in used
    {
      PoolHas(entries, |entries|, i, k);
      assert entries[i].units[k] in all;
    }
  }

  /** A block that has just been added is free. */
  lemma NewBlockFound(was: seq<Entry>, entries: seq<Entry>, chunkSize: nat, used: set<Unit>, at: nat, avail: nat)
    requires Apart(entries, chunkSize) && 0 < chunkSize
    requires |entries| == |was| + 1 && entries[..|was|] == was && used <= Pool(was, |was|)
    ensures !NoneFound(entries, used, at, avail)
  {
    hide Distinct, Pool;
    var i := |was|;
    assert was + [entries[i]] == entries;
    PoolGrows(was, entries[i], i);
    assert Block(entries, chunkSize, i);
    var u := entries[i].units[0];
    assert u in Members(entries[i].units);
    assert !BlockBusy(entries[i].units, used, if i == at then avail else 0);
  }

  /** Put `e` between the last block and the first. */
  method Link(last: Entry, e: Entry, first: Entry, ghost was: seq<Entry>)
    requires was != [] && Distinct(was) && Cycle(was) && e !in was
    requires last == was[|was| - 1] && first == was[0]
    modifies last`next, e`next
    ensures Cycle(was + [e])
  {
    last.next := e;
    e.next := first;
    ghost var all := was + [e];
    forall i | 0 <= i < |all|
      ensures all[i].next == After(all, i)
    {
      if i < |was| - 1 {
        assert all[i] == was[i] && was[i] != last && was[i].next == After(was, i);
      }
    }
  }

  method MakeUnits(n: nat) returns (units: seq<Unit>)
    ensures |units| == n && Distinct(units) && fresh(units) && forall u <- units :: u.flag == 0
  {
    units := [];
    for i := 0 to n
      invariant |units| == i && Distinct(units) && fresh(units) && forall u <- units :: u.flag == 0
    {
      var u := new Unit();
      units := units + [u];
    }
  }

  lemma LastAppend(entries: seq<Entry>, e: Entry, chunkSize: nat)
    requires Apart(entries, chunkSize) && |e.units| == chunkSize && Distinct(e.units)
    requires Members(e.units) !! Pool(entries, |entries|)
    ensures Apart(entries + [e], chunkSize)
  {
    hide Distinct, Members;
    var all := entries + [e];
    forall n | 0 <= n < |all|
      ensures Block(all, chunkSize, n)
    {
      PoolGrows(entries, e, n);
      if n < |entries| {
        assert Block(entries, chunkSize, n) && all[n] == entries[n];
      }
    }
  }

  lemma BlockSize(entries: seq<Entry>, chunkSize: nat, i: nat)
    requires Apart(entries, chunkSize) && i < |entries|
    ensures |entries[i].units| == chunkSize
  {
    assert Block(entries, chunkSize, i);
  }

  /** A unit was not seen in earlier blocks nor earlier in its own. */
  lemma FreshMember(entries: seq<Entry>, chunkSize: nat, i: nat, k: nat)
    requires Apart(entries, chunkSize) && i < |entries| && k < |entries[i].units|
    ensures entries[i].units[k] !in Seen(entries, i, k)
    ensures Seen(entries, i, k + 1) == Seen(entries, i, k) + {entries[i].units[k]}
  {
    hide Distinct, Members;
    assert Block(entries, chunkSize, i);
    NotBefore(entries[i].units, k);
    MembersSnoc(entries[i].units, k);
  }

  lemma NotBefore(units: seq<Unit>, k: nat)
    requires Distinct(units) && k < |units|
    ensures units[k] in Members(units) && units[k] !in Members(units[..k])
  {
  }

  /** The units of the first `i` blocks and the first `k` units of block `i`. */
  ghost function Seen(entries: seq<Entry>, i: nat, k: nat): set<Unit>
    requires i < |entries| && k <= |entries[i].units|
  {
    Pool(entries, i) + Members(entries[i].units[..k])
  }

  lemma NoneSeen(entries: seq<Entry>, i: nat)
    requires i < |entries|
    ensures Seen(entries, i, 0) == Pool(entries, i)
  {
  }

  lemma AllSeen(entries: seq<Entry>, i: nat)
    requires i < |entries|
    ensures Seen(entries, i, |entries[i].units|) == Pool(entries, i + 1)
  {
    var units := entries[i].units;
    assert units[..|units|] == units;
  }

  lemma NoPool(entries: seq<Entry>, used: set<Unit>)
    ensures |Pool(entries, 0) * used| == 0
  {
    assert Pool(entries, 0) * used == {};
  }

  lemma MembersSnoc(units: seq<Unit>, k: nat)
    requires k < |units|
    ensures Members(units[..k + 1]) == Members(units[..k]) + {units[k]}
  {
    assert units[..k + 1] == units[..k] + [units[k]];
  }

  lemma OneMore(seen: set<Unit>, used: set<Unit>, u: Unit)
    requires u !in seen
    ensures |(seen + {u}) * used| == |seen * used| + (if u in used then 1 else 0)
  {
    assert (seen + {u}) * used == seen * used + (if u in used then {u} else {});
  }

  lemma NextInCycle(entries: seq<Entry>, i: nat)
    requires Cycle(entries) && i < |entries|
    ensures entries[i].next == After(entries, i)
  {
  }

  // ----- A free unit that is not found -----

  /** With one block the last unit is never handed out: the search gives up once the others are
      occupied, and with up to ten units the pool does not grow before either. */
  lemma LastUnitMissed(e: Entry, used: set<Unit>)
    requires 2 <= |e.units| && Distinct(e.units) && used == Members(e.units[..|e.units| - 1])
    ensures e.units[|e.units| - 1] !in used && NoneFound([e], used, 0, 0)
    ensures |used| * 10 <= |e.units| * 9 <==> |e.units| <= 10
  {
    var n := |e.units| - 1;
    MembersSize(e.units[..n]);
    forall k | 0 <= k < n
      ensures e.units[k] in used
    {
      assert e.units[k] == e.units[..n][k];
    }
  }

  /** Two units, of which the first is occupied: no unit is found. */
  method FreeUnitMissed() returns (q: UnitQueue, r: Unit?)
    ensures fresh(q) && q.Shape() && q.Counted() && q.used < q.all && r == null
  {
    hide NoneFound, Distinct, Cycle, Apart, Pool;
    var u0 := new Unit();
    var u1 := new Unit();
    q := new UnitQueue([u0, u1]);
    assert q.all == {u0, u1};
    q.Occupy(u0);
    LastUnitMissed(q.entries[0], {u0});
    assert q.entries == [q.entries[0]];
    r := q.GetNextAvailUnit();
  }
}
