/** The receiver's buffer: CRcvBuffer, a circular array of packet units. */
module RcvBuffer {
  import opened Arith
  import opened Circular
  import opened IntSets
  import opened Stream
  import opened RcvModel
  import M = MsgModel
  import opened MsgField
  import opened Q = UnitQueue

  // ----- Units in slots -----

  ghost predicate SlotIs(slots: seq<Unit?>, start: int, readPos: int, units: map<int, Unit>, i: int) {
    var s := Slot(start, readPos, i, |slots|);
    0 <= s < |slots| && slots[s] == if i in units then units[i] else null
  }

  /** Each packet from `readPos` on is in its slot, counted from `start`; the other slots are empty. */
  ghost predicate InSlots(slots: seq<Unit?>, start: int, readPos: int, units: map<int, Unit>) {
    && 0 <= start < |slots|
    && (forall i <- units :: readPos <= i < readPos + |slots|)
    && (forall i {:trigger SlotIs(slots, start, readPos, units, i)} ::
          readPos <= i < readPos + |slots| ==> SlotIs(slots, start, readPos, units, i))
  }

  lemma SlotOf(slots: seq<Unit?>, start: int, readPos: int, units: map<int, Unit>, i: int)
    requires InSlots(slots, start, readPos, units) && readPos <= i < readPos + |slots|
    ensures
      var s := Slot(start, readPos, i, |slots|);
      0 <= s < |slots| && slots[s] == if i in units then units[i] else null
  {
    assert SlotIs(slots, start, readPos, units, i);
  }

  lemma Put(slots: seq<Unit?>, start: int, readPos: int, units: map<int, Unit>, i: int, u: Unit)
    requires InSlots(slots, start, readPos, units) && readPos <= i < readPos + |slots|
    ensures
      var s := Slot(start, readPos, i, |slots|);
      0 <= s < |slots| && InSlots(slots[s := u], start, readPos, units[i := u])
  {
    SlotInRange(start, readPos, i, |slots|);
    var s := Slot(start, readPos, i, |slots|);
    var slots', units' := slots[s := u], units[i := u];
    forall j | readPos <= j < readPos + |slots|
      ensures SlotIs(slots', start, readPos, units', j)
    {
      SlotInjective(start, readPos, i, j, |slots|);
      assert SlotIs(slots, start, readPos, units, j);
    }
  }

  lemma Clear(slots: seq<Unit?>, start: int, readPos: int, units: map<int, Unit>, i: int)
    requires InSlots(slots, start, readPos, units) && readPos <= i < readPos + |slots|
    ensures
      var s := Slot(start, readPos, i, |slots|);
      0 <= s < |slots| && InSlots(slots[s := null], start, readPos, units - {i})
  {
    SlotInRange(start, readPos, i, |slots|);
    var s := Slot(start, readPos, i, |slots|);
    var slots', units' := slots[s := null], units - {i};
    forall j | readPos <= j < readPos + |slots|
      ensures SlotIs(slots', start, readPos, units', j)
    {
      SlotInjective(start, readPos, i, j, |slots|);
      assert SlotIs(slots, start, readPos, units, j);
    }
  }

  /** The slot behind slot `p`. */
  function Behind(p: int, size: int): int {
    if p + 1 == size then 0 else p + 1
  }

  /** An empty first slot becomes the last one. */
  lemma Advance(slots: seq<Unit?>, start: int, readPos: int, units: map<int, Unit>)
    requires InSlots(slots, start, readPos, units) && readPos !in units
    ensures InSlots(slots, Behind(start, |slots|), readPos + 1, units)
  {
    var next, from := Behind(start, |slots|), readPos + 1;
    forall j | from <= j < from + |slots|
      ensures SlotIs(slots, next, from, units, j)
    {
      assert SlotIs(slots, start, readPos, units, if j == readPos + |slots| then readPos else j);
    }
  }

  // ----- What the units hold -----

  function FlagOf(taken: set<int>, i: int): int {
    if i in taken then 2 else 1
  }

  /** A different unit for each index, and no other units. */
  ghost predicate Owns(units: map<int, Unit>, mine: set<Unit>) {
    && (forall i <- units :: units[i] in mine)
    && (forall i, j :: i in units && j in units && i != j ==> units[i] != units[j])
    && |mine| == |units|
  }

  lemma OwnsMore(units: map<int, Unit>, mine: set<Unit>, i: int, u: Unit)
    requires Owns(units, mine) && i !in units && u !in mine
    ensures Owns(units[i := u], mine + {u})
  {
  }

  lemma OwnsLess(units: map<int, Unit>, mine: set<Unit>, i: int)
    requires Owns(units, mine) && i in units
    ensures Owns(units - {i}, mine - {units[i]})
  {
    assert (units - {i}).Keys == units.Keys - {i};
    assert |units - {i}| == |units.Keys| - 1;
  }

  /** The units hold the stored packets. */
  ghost predicate Kept(units: map<int, Unit>, mine: set<Unit>, buf: map<int, Chunk>, taken: set<int>)
    reads mine
  {
    && Owns(units, mine) && units.Keys == buf.Keys
    && (forall i <- units :: units[i].chunk == buf[i] && units[i].flag == FlagOf(taken, i))
  }

  /** The part of the receiver's state that the positions are about. */
  ghost predicate Fits(m: Rcv) {
    && m.readPos <= m.lastAck <= m.curr + 1 < m.readPos + m.bufSize
    && (forall i <- m.buf :: m.readPos <= i <= m.curr)
    && (forall i <- m.taken :: i < m.readPos || i in m.buf)
  }

  /** The same packets in the same positions. */
  predicate Alike(m: Rcv, m': Rcv) {
    && m.bufSize == m'.bufSize && m.readPos == m'.readPos && m.lastAck == m'.lastAck && m.curr == m'.curr
    && m.notch == m'.notch && m.buf == m'.buf && m.taken == m'.taken
  }

  class RcvBuffer {
    const size: nat
    const slots: array<Unit?>
    const queue: UnitQueue
    var startPos: int
    var lastAckPos: int
    var maxPos: int
    var notch: nat

    /** The unit that holds each stored packet. */
    ghost var units: map<int, Unit>
    ghost var mine: set<Unit>

    /** Units flagged for some other buffer. */
    ghost function Others(): set<Unit>
      reads this`mine, queue`used
    {
      queue.used - mine
    }

    /** The buffer holds what the model says, reading from slot `p` on. */
    ghost predicate Stands(p: int, m: Rcv)
      reads this, slots, queue, queue.all, mine
    {
      && Fits(m) && slots.Length == size == m.bufSize
      && 0 <= p < size && lastAckPos == Slot(p, m.readPos, m.lastAck, size)
      && maxPos == M.Furthest(m) - m.lastAck && notch == m.notch
      && InSlots(slots[..], p, m.readPos, units)
      && Kept(units, mine, m.buf, m.taken)
      && queue.Counted() && mine <= queue.used
    }

    ghost predicate Represents(m: Rcv)
      reads this, slots, queue, queue.all, mine
    {
      Stands(startPos, m)
    }

    constructor (queue: UnitQueue, size: nat, ghost isn: int, ghost stream: bool)
      requires 0 < size && queue.Counted()
      ensures Represents(InitRcv(isn, size, stream)) && mine == {} && this.queue == queue && this.size == size
      ensures fresh(slots)
    {
      this.queue, this.size := queue, size;
      slots := new Unit?[size](_ => null);
      startPos, lastAckPos, maxPos, notch := 0, 0, 0, 0;
      units, mine := map[], {};
      new;
      forall i | isn <= i < isn + size
        ensures SlotIs(slots[..], 0, isn, units, i)
      {
        SlotInRange(0, isn, i, size);
      }
    }

    method GetRcvDataSize(ghost m: Rcv) returns (n: int)
      requires Represents(m)
      ensures n == m.lastAck - m.readPos
    {
      if lastAckPos >= startPos {
        return lastAckPos - startPos;
      }
      return size + lastAckPos - startPos;
    }

    method GetAvailBufSize(ghost m: Rcv) returns (n: int)
      requires Represents(m)
      ensures n == Avail(m)
    {
      var used := GetRcvDataSize(m);
      n := size - used - 1;
    }

    /** Store a packet `offset` places behind the last acknowledged one. */
    method AddData(unit: Unit, offset: int, ghost m: Rcv) returns (stored: bool)
      requires Represents(m) && 0 <= offset < Avail(m)
      requires unit in queue.all && unit !in queue.used
      modifies slots, this`maxPos, this`units, this`mine, queue`count, queue`used, unit`flag
      ensures stored <==> m.lastAck + offset !in m.buf
      ensures Represents(OnData(m, m.lastAck + offset, old(unit.chunk)).0)
      ensures mine <= old(mine) + {unit} && Others() == old(Others())
    {
      hide InSlots, Kept, Fits, OnData, M.Furthest, UnitQueue.Counted;
      AddedFacts(m, m.lastAck + offset, unit.chunk);
      ghost var i := m.lastAck + offset;
      SlotOf(slots[..], startPos, m.readPos, units, i);
      KeptKeys(units, mine, m.buf, m.taken);
      ModSmall(lastAckPos + offset, size);
      var pos := (lastAckPos + offset) % size;
      if offset > maxPos {
        maxPos := offset;
      }
      if slots[pos] != null {
        return false;
      }
      Put(slots[..], startPos, m.readPos, units, i, unit);
      StoreUnit(unit, pos, i, m.buf, m.taken);
      return true;
    }

    /** The next packet from the network is written into a free unit. */
    method Fill(unit: Unit, chunk: Chunk, ghost m: Rcv)
      requires Represents(m) && unit in queue.all && unit !in queue.used
      modifies unit`chunk
      ensures Represents(m) && unit.chunk == chunk
    {
      hide InSlots, Owns, Fits;
      unit.chunk := chunk;
    }

    /** Put a unit into a slot and count it. */
    method StoreUnit(unit: Unit, pos: int, ghost i: int, ghost buf: map<int, Chunk>, ghost taken: set<int>)
      requires 0 <= pos < slots.Length
      requires unit in queue.all && unit !in queue.used && queue.Counted() && mine <= queue.used
      requires Kept(units, mine, buf, taken) && i !in units && i !in taken
      modifies slots, this`units, this`mine, queue`count, queue`used, unit`flag
      ensures slots[..] == old(slots[..])[pos := unit] && units == old(units)[i := unit] && mine == old(mine) + {unit}
      ensures queue.Counted() && mine <= queue.used && Others() == old(Others())
      ensures Kept(units, mine, buf[i := unit.chunk], taken)
    {
      hide Kept, UnitQueue.Counted, RcvBuffer.Others;
      Claim(unit, i, buf, taken);
      slots[pos] := unit;
    }

    /** Count a unit as one of this buffer. */
    method Claim(unit: Unit, ghost i: int, ghost buf: map<int, Chunk>, ghost taken: set<int>)
      requires unit in queue.all && unit !in queue.used && queue.Counted() && mine <= queue.used
      requires Kept(units, mine, buf, taken) && i !in units && i !in taken
      modifies this`units, this`mine, queue`count, queue`used, unit`flag
      ensures units == old(units)[i := unit] && mine == old(mine) + {unit}
      ensures queue.Counted() && mine <= queue.used && Others() == old(Others())
      ensures Kept(units, mine, buf[i := unit.chunk], taken)
    {
      hide Kept, UnitQueue.Counted;
      queue.Occupy(unit);
      KeptMore(units, mine, buf, taken, i, unit);
      units := units[i := unit];
      mine := mine + {unit};
    }

    /** Empty slot `p`, which holds the first packet, and step on. */
    method FreeFirst(p: int, ghost m: Rcv) returns (next: int)
      requires Stands(p, m) && m.readPos in m.buf && m.readPos < m.lastAck
      modifies slots, this`units, this`mine, queue`count, queue`used, mine
      ensures Stands(next, m.(readPos := m.readPos + 1, buf := m.buf - {m.readPos}))
      ensures mine <= old(mine) && Others() == old(Others())
    {
      hide InSlots, Kept;
      ghost var i := m.readPos;
      KeptKeys(units, mine, m.buf, m.taken);
      SlotOf(slots[..], p, i, units, i);
      Clear(slots[..], p, i, units, i);
      Advance(slots[..][p := null], p, i, units - {i});
      KeptLess(units, mine, m.buf, m.taken, i);
      OwnUnit(units, mine, m.buf, m.taken, i);
      SlotRebase(p, i, i + 1, m.lastAck, size);
      var tmp := slots[p];
      ghost var was := slots[..];
      slots[p] := null;
      assert slots[..] == was[p := null];
      units := units - {i};
      mine := mine - {tmp};
      queue.Release(tmp);
      next := p + 1;
      if next == size {
        next := 0;
      }
    }

    /** Copy up to `len` bytes of the acknowledged packets out, freeing the packets read. */
    method ReadBuffer(len: nat, ghost m: Rcv) returns (data: Payload)
      requires Represents(m) && RcvOrdered(m)
      modifies this, slots, queue`count, queue`used, mine
      ensures Represents(Read(m, len))
      ensures data == ReadBytes(m.buf, m.readPos, m.lastAck, m.notch, len).bytes
      ensures mine <= old(mine) && Others() == old(Others())
    {
      hide InSlots, Kept, ReadBytes, RcvOrdered, Fits, Inside;
      var p, lastack, rs := startPos, lastAckPos, len;
      data := [];
      ghost var c := m;
      PassedNone(m);
      StartInside(m);
      assert ReadBytes(m.buf, m.readPos, m.lastAck, m.notch, len)
             == Prepended([], ReadBytes(m.buf, m.readPos, m.lastAck, m.notch, len));
      while p != lastack && rs > 0
        invariant Stands(p, c) && lastack == lastAckPos
        invariant c == Passed(m, c.readPos, c.notch) && Inside(m, c.readPos, c.notch)
        invariant 0 <= rs
        invariant ReadBytes(m.buf, m.readPos, m.lastAck, m.notch, len)
                  == Prepended(data, ReadBytes(m.buf, c.readPos, m.lastAck, c.notch, rs))
        invariant mine <= old(mine) && Others() == old(Others())
        decreases rs
      {
        ghost var was := data;
        var piece;
        p, piece, c := ReadOne(p, rs, m, c, was);
        data := data + piece;
        rs := rs - |piece|;
      }
      AtEnd(p, c);
      ReadDone(m, c, data, rs);
      startPos := p;
      SameStand(c, Read(m, len));
    }

    /** One turn of the copy loop: take what is left of the first packet, up to `rs` bytes. */
    method ReadOne(p: int, rs: nat, ghost m: Rcv, ghost c: Rcv, ghost data: Payload)
      returns (next: int, piece: Payload, ghost c': Rcv)
      requires Stands(p, c) && RcvOrdered(m) && p != lastAckPos && 0 < rs
      requires c == Passed(m, c.readPos, c.notch) && Inside(m, c.readPos, c.notch)
      modifies slots, this`units, this`mine, this`notch, queue`count, queue`used, mine
      ensures Stands(next, c') && c' == Passed(m, c'.readPos, c'.notch) && Inside(m, c'.readPos, c'.notch)
      ensures 0 < |piece| <= rs
      ensures Prepended(data, ReadBytes(m.buf, c.readPos, m.lastAck, c.notch, rs))
              == Prepended(data + piece, ReadBytes(m.buf, c'.readPos, m.lastAck, c'.notch, rs - |piece|))
      ensures mine <= old(mine) && Others() == old(Others())
    {
      hide InSlots, Kept, ReadBytes, RcvOrdered, Fits, Prepended;
      AtEnd(p, c);
      ReadStep(m, c.readPos, c.notch, data, rs);
      PassedOne(m, c.readPos, c.notch);
      var unit := UnitAt(p, p, c, c.readPos);
      var unitsize := |unit.chunk.bytes| - notch;
      if unitsize > rs {
        unitsize := rs;
      }
      piece := unit.chunk.bytes[notch..notch + unitsize];
      if rs > unitsize || rs == |unit.chunk.bytes| - notch {
        next := FreeFirst(p, c);
        c' := Passed(m, c.readPos + 1, c.notch);
        SetNotch(0, next, c');
        c' := c'.(notch := 0);
      } else {
        next := p;
        SetNotch(notch + rs, p, c);
        c' := c.(notch := c.notch + rs);
      }
    }

    method SetNotch(n: nat, ghost p: int, ghost m: Rcv)
      requires Stands(p, m)
      modifies this`notch
      ensures Stands(p, m.(notch := n))
    {
      hide InSlots, Kept;
      notch := n;
    }

    /** The next `len` packets have been acknowledged. */
    method AckData(len: nat, ghost m: Rcv)
      requires Represents(m) && m.lastAck + len <= m.curr + 1
      modifies this`lastAckPos, this`maxPos
      ensures Represents(m.(lastAck := m.lastAck + len))
    {
      hide InSlots, Kept;
      ModSmall(lastAckPos + len, size);
      lastAckPos := (lastAckPos + len) % size;
      maxPos := maxPos - len;
      if maxPos < 0 {
        maxPos := 0;
      }
    }

    /** What slot `s` says about packet `i`. */
    lemma Peek(start: int, m: Rcv, i: int, s: int)
      requires Stands(start, m) && m.readPos <= i < m.readPos + size && s == Slot(start, m.readPos, i, size)
      ensures 0 <= s < slots.Length
      ensures slots[s] != null <==> i in m.buf
      ensures slots[s] != null ==> slots[s] in mine && slots[s].chunk == m.buf[i] && slots[s].flag == FlagOf(m.taken, i)
    {
      hide InSlots, Kept;
      KeptKeys(units, mine, m.buf, m.taken);
      SlotOf(slots[..], start, m.readPos, units, i);
      if i in m.buf {
        OwnUnit(units, mine, m.buf, m.taken, i);
      }
    }

    /** Is the message that begins in the first slot complete as far as it is acknowledged? */
    method LookAhead(ghost m: Rcv) returns (good: bool)
      requires Represents(m)
      ensures good <==> M.Whole(m, m.readPos)
    {
      hide InSlots, Kept, M.Whole;
      var i := startPos;
      ghost var x := m.readPos;
      while i != lastAckPos
        invariant m.readPos <= x <= m.lastAck && i == Slot(startPos, m.readPos, x, size)
        invariant M.Whole(m, m.readPos) <==> M.Whole(m, x)
        decreases m.lastAck - x
      {
        Peek(startPos, m, x, i);
        WholeStep(m, x);
        if slots[i] == null || slots[i].flag != 1 {
          return false;
        }
        if Boundary(slots[i].chunk.msg) == 1 || Boundary(slots[i].chunk.msg) == 3 {
          return true;
        }
        i := i + 1;
        if i == size {
          i := 0;
        }
        x := x + 1;
      }
      WholeStep(m, x);
      return true;
    }

    /** Pass over slots at the beginning that hold no complete unread message. */
    method SkipBad(ghost m: Rcv) returns (ghost c: Rcv)
      requires Represents(m)
      modifies this`startPos, slots, this`units, this`mine, queue`count, queue`used, mine
      ensures c == M.Discard(m, M.SkipTo(m, m.readPos)) && Represents(c)
      ensures mine <= old(mine) && Others() == old(Others())
    {
      hide InSlots, Kept, M.Whole, M.SkipTo, M.Discard, Fits;
      c := m;
      DiscardNone(m);
      while startPos != lastAckPos
        invariant Represents(c) && c == M.Discard(m, c.readPos) && m.readPos <= c.readPos <= m.lastAck
        invariant M.SkipTo(m, c.readPos) == M.SkipTo(m, m.readPos)
        invariant mine <= old(mine) && Others() == old(Others())
        decreases m.lastAck - c.readPos
      {
        ghost var x := c.readPos;
        AtEnd(startPos, c);
        Peek(startPos, c, x, startPos);
        SkipStep(m, c.readPos);
        DiscardNext(m, c);
        if slots[startPos] == null {
          StepOver(c);
        } else {
          if slots[startPos].flag == 1 && Boundary(slots[startPos].chunk.msg) > 1 {
            var good := LookAhead(c);
            if good {
              return;
            }
          }
          startPos := FreeFirst(startPos, c);
        }
        c := c.(readPos := x + 1, buf := c.buf - {x});
        Retaken(c, c.taken - {x});
        c := M.Discard(m, x + 1);
      }
      AtEnd(startPos, c);
      SkipStep(m, c.readPos);
    }

    /** Pass over an empty first slot. */
    method StepOver(ghost m: Rcv)
      requires Represents(m) && m.readPos !in m.buf && m.readPos < m.lastAck
      modifies this`startPos
      ensures Represents(m.(readPos := m.readPos + 1, buf := m.buf - {m.readPos}))
    {
      hide InSlots, Kept;
      KeptKeys(units, mine, m.buf, m.taken);
      Advance(slots[..], startPos, m.readPos, units);
      SlotRebase(startPos, m.readPos, m.readPos + 1, m.lastAck, size);
      assert m.buf - {m.readPos} == m.buf;
      startPos := startPos + 1;
      if startPos == size {
        startPos := 0;
      }
    }

    /** Marks matter for stored packets only. */
    lemma Retaken(m: Rcv, taken: set<int>)
      requires Represents(m) && taken <= m.taken
      requires forall i <- m.buf :: i in taken <==> i in m.taken
      ensures Represents(m.(taken := taken))
    {
      hide InSlots, Owns;
    }

    /** Look for the first message that may be handed out. */
    method SearchMsg(ghost m: Rcv) returns (found: bool, p: int, q: int, passack: bool)
      requires Represents(m)
      ensures
        match M.Search(m, m.readPos, None)
        case Found(lo, hi) =>
          && found && passack == (hi >= m.lastAck)
          && p == Slot(startPos, m.readPos, lo, size) && q == Slot(startPos, m.readPos, hi, size)
        case NotFound =>
          && !found && passack && q == Slot(startPos, m.readPos, M.Furthest(m) + 1, size)
          && p == StartSlot(startPos, m.readPos, Trail(m, m.readPos, None), size)
    {
      hide InSlots, Kept, M.Search;
      p := -1;
      q := startPos;
      AtEnd(startPos, m);
      passack := startPos == lastAckPos;
      found := false;
      var i, n := 0, maxPos;
      var held := GetRcvDataSize(m);
      n := n + held;
      ghost var x, start := m.readPos, None;
      while i <= n
        invariant x == m.readPos + i && m.readPos <= x <= M.Furthest(m) + 1
        invariant q == Slot(startPos, m.readPos, x, size) && passack == (x >= m.lastAck) && !found
        invariant p == StartSlot(startPos, m.readPos, start, size) && (start.Some? ==> m.readPos <= start.value < x)
        invariant M.Search(m, m.readPos, None) == M.Search(m, x, start)
        invariant Trail(m, m.readPos, None) == Trail(m, x, start)
        decreases n - i
      {
        Peek(startPos, m, x, q);
        SearchStep(m, x, start);
        if slots[q] != null && slots[q].flag == 1 {
          match Boundary(slots[q].chunk.msg) {
            case 3 =>
              p := q;
              found := true;
            case 2 =>
              p := q;
            case 1 =>
              if p != -1 {
                found := true;
              }
            case _ =>
          }
        } else {
          p := -1;
        }
        start := NextStart(m, x, start);
        if found {
          if !passack || !OrderFlag(slots[q].chunk.msg) {
            return;
          }
          found := false;
        }
        i := i + 1;
        q := q + 1;
        if q == size {
          q := 0;
        }
        if q == lastAckPos {
          passack := true;
        }
        x := x + 1;
      }
      SearchStep(m, x, start);
    }

    /** Skip what cannot be read at the beginning, then look for a message.  A message that fills
        the whole buffer is reported as well, as an empty stretch of slots. */
    method ScanMsg(ghost m: Rcv) returns (found: bool, p: int, q: int, passack: bool, ghost c: Rcv, ghost f: M.Found)
      requires Represents(m)
      modifies this`startPos, slots, this`units, this`mine, queue`count, queue`used, mine
      ensures Represents(c) && mine <= old(mine) && Others() == old(Others())
      ensures (c, f) == M.Scan(m)
      ensures found <==> f.Found? || M.Misled(m)
      ensures
        match f
        case Found(lo, hi) =>
          && passack == (hi >= c.lastAck)
          && p == Slot(startPos, c.readPos, lo, size) && q == Slot(startPos, c.readPos, hi, size)
        case NotFound => found ==> p == (q + 1) % size && passack
    {
      hide InSlots, Kept, M.Search, M.SkipTo, M.Discard, M.Fills, Fits;
      AtEnd(startPos, m);
      if startPos == lastAckPos && maxPos <= 0 {
        EmptyIsNotFull(m);
        return false, -1, 0, false, m, M.NotFound;
      }
      c := SkipBad(m);
      found, p, q, passack := SearchMsg(c);
      f := M.Search(c, c.readPos, None);
      if !found {
        SkippedEnd(m);
        Fallback(startPos, c);
        AtEnd(startPos, c);
        if p != -1 && (q + 1) % size == p {
          found := true;
        }
      }
    }

    /** Is there a message to read?  The answer is also yes for a message that fills the buffer,
        although readMsg hands out nothing then. */
    method GetRcvMsgNum(ghost m: Rcv) returns (n: int)
      requires Represents(m)
      modifies this`startPos, slots, this`units, this`mine, queue`count, queue`used, mine
      ensures Represents(M.Scan(m).0) && mine <= old(mine) && Others() == old(Others())
      ensures n == if |M.ReadMsg(m, 0).messages| > |m.messages| || M.Misled(m) then 1 else 0
    {
      hide InSlots, Kept, M.Misled, M.ReadMsg, M.Scan;
      ghost var c, f;
      var found, p, q, passack;
      found, p, q, passack, c, f := ScanMsg(m);
      ReadMsgIs(m, c, f, 0);
      n := if found then 1 else 0;
    }

    /** Hand out the next message, as far as it fits into `len` bytes. */
    method ReadMsg(len: nat, ghost m: Rcv, ghost chunks: seq<Chunk>) returns (data: Payload)
      requires Represents(m) && RcvOrdered(m) && M.MsgInv(m, chunks) && m.lastAck <= m.isn + |chunks| && m.notch == 0
      modifies this`startPos, slots, this`units, this`mine, queue`count, queue`used, mine
      ensures Represents(M.ReadMsg(m, len)) && data == M.Handed(m, len)
      ensures mine <= old(mine) && Others() == old(Others())
    {
      hide InSlots, Kept, M.Search, M.SkipTo, M.Discard, M.MsgInv, M.Deliverable, RcvOrdered, M.Deliver, M.ReadMsg,
        M.Take, M.Gather;
      ghost var r1, g := M.Hit(m, chunks);
      var found, p, q, passack; ghost var c, f;
      found, p, q, passack, c, f := ScanMsg(m);
      ReadMsgIs(m, c, f, len);
      HitIsFresh(c, chunks, f);
      if !found {
        return [];
      }
      data := CopyMessage(p, q, passack, len, c, f);
    }

    /** The copy loop: the packets of a found message are freed, or marked if not all of them are
        acknowledged. */
    method CopyMessage(first: int, q: int, passack: bool, len: nat, ghost c: Rcv, ghost f: M.Found)
      returns (data: Payload)
      requires Represents(c)
      requires
        match f
        case Found(lo, hi) =>
          && c.readPos <= lo <= hi <= c.curr && (forall i | lo <= i <= hi :: M.Fresh(c, i))
          && passack == (hi >= c.lastAck) && (!passack ==> lo == c.readPos)
          && first == Slot(startPos, c.readPos, lo, size) && q == Slot(startPos, c.readPos, hi, size)
        case NotFound => first == (q + 1) % size && passack
      modifies this`startPos, slots, this`units, this`mine, queue`count, queue`used, mine
      ensures
        match f
        case Found(lo, hi) =>
          Represents(M.Deliver(c, lo, hi, len)) && data == M.Take(M.Gather(c.buf, lo, hi), len)
        case NotFound => Represents(c) && data == []
      ensures mine <= old(mine) && Others() == old(Others())
    {
      hide InSlots, Kept, M.Gather, M.Take, Fits, Eaten, M.Deliver, RcvBuffer.Others, UnitQueue.Counted;
      ghost var lo, hi := if f.Found? then f.lo else 0, if f.Found? then f.hi else -1;
      ghost var x, d := lo, c;
      var p, rs := first, len;
      data := [];
      if f.Found? {
        EndSlot(c, hi, q);
        SameEnd(c, lo, hi);
      }
      forall i | lo <= i <= hi
        ensures i in c.buf
      {
        assert M.Fresh(c, i);
      }
      EatenNone(c, lo);
      TakeNone(c.buf, lo, len);
      while p != (q + 1) % size
        invariant lo <= x <= hi + 1 && mine <= old(mine) && Others() == old(Others())
        invariant Stands(if passack then startPos else p, d) && startPos == old(startPos)
        invariant d == Eaten(c, lo, x, passack)
        invariant p == if f.Found? then Slot(startPos, c.readPos, x, size) else first
        invariant p == (q + 1) % size <==> x == hi + 1
        invariant data == M.Take(M.Gather(c.buf, lo, x - 1), len) && rs == len - |data|
        decreases hi + 1 - x
      {
        assert M.Fresh(c, x);
        EatenNext(c, lo, x, passack);
        TakeNext(c.buf, lo, x, len);
        AtEnd(if passack then startPos else p, d);
        var piece;
        p, piece := CopyOne(p, passack, rs, d, x);
        data := data + piece;
        rs := rs - |piece|;
        x := x + 1;
        d := Eaten(c, lo, x, passack);
        SameEnd(c, x, hi);
      }
      if !passack {
        startPos := (q + 1) % size;
      }
      if f.Found? {
        EatenAll(c, lo, hi, len);
        SameStand(d, M.Deliver(c, lo, hi, len));
      }
    }

    lemma EndSlot(c: Rcv, hi: int, q: int)
      requires Represents(c) && c.readPos <= hi <= c.curr && q == Slot(startPos, c.readPos, hi, size)
      ensures (q + 1) % size == Slot(startPos, c.readPos, hi + 1, size)
    {
      hide InSlots, Kept;
      NextSlot(startPos, c.readPos, hi, size, q);
    }

    lemma SameEnd(c: Rcv, x: int, hi: int)
      requires 0 <= startPos < size && Fits(c) && c.bufSize == size && c.readPos <= x <= hi + 1
          && c.readPos <= hi <= c.curr
      ensures Slot(startPos, c.readPos, x, size) == Slot(startPos, c.readPos, hi + 1, size) <==> x == hi + 1
      ensures x <= hi ==> Behind(Slot(startPos, c.readPos, x, size), size) == Slot(startPos, c.readPos, x + 1, size)
    {
      SlotInjective(startPos, c.readPos, x, hi + 1, size);
    }

    /** One turn of the copy loop. */
    method CopyOne(p: int, passack: bool, rs: nat, ghost d: Rcv, ghost x: int) returns (next: int, piece: Payload)
      requires Stands(if passack then startPos else p, d) && M.Fresh(d, x)
      requires if passack then p == Slot(startPos, d.readPos, x, size) else x == d.readPos < d.lastAck
      modifies slots, this`units, this`mine, queue`count, queue`used, mine
      ensures next == Behind(p, size) && mine <= old(mine) && Others() == old(Others())
      ensures piece == d.buf[x].bytes[..if |d.buf[x].bytes| > rs then rs else |d.buf[x].bytes|]
      ensures
        if passack then Stands(startPos, d.(taken := d.taken + {x}))
        else Stands(next, d.(readPos := x + 1, buf := d.buf - {x}))
    {
      hide InSlots, Kept;
      AtEnd(if passack then startPos else p, d);
      var unit := UnitAt(p, if passack then startPos else p, d, x);
      var unitsize := |unit.chunk.bytes|;
      if rs >= 0 && unitsize > rs {
        unitsize := rs;
      }
      piece := [];
      if unitsize > 0 {
        piece := unit.chunk.bytes[..unitsize];
      }
      next := TakeUnit(p, passack, d, x);
    }

    /** Free a copied packet, or mark it read when its message is not yet fully acknowledged. */
    method TakeUnit(p: int, passack: bool, ghost d: Rcv, ghost x: int) returns (next: int)
      requires Stands(if passack then startPos else p, d) && M.Fresh(d, x)
      requires if passack then p == Slot(startPos, d.readPos, x, size) else x == d.readPos < d.lastAck
      modifies slots, this`units, this`mine, queue`count, queue`used, mine
      ensures next == Behind(p, size) && mine <= old(mine) && Others() == old(Others())
      ensures
        if passack then Stands(startPos, d.(taken := d.taken + {x}))
        else Stands(next, d.(readPos := x + 1, buf := d.buf - {x}))
    {
      hide InSlots, Kept;
      AtEnd(if passack then startPos else p, d);
      if !passack {
        next := FreeFirst(p, d);
      } else {
        var unit := UnitAt(p, startPos, d, x);
        MarkRead(unit, d, x);
        next := p + 1;
        if next == size {
          next := 0;
        }
      }
    }

    method MarkRead(unit: Unit, ghost d: Rcv, ghost x: int)
      requires Represents(d) && M.Fresh(d, x) && x in units && unit == units[x]
      modifies unit`flag
      ensures Represents(d.(taken := d.taken + {x}))
    {
      hide InSlots;
      unit.flag := 2;
    }

    /** The unit of packet `i` in slot `p`, counting from slot `start`. */
    method UnitAt(p: int, ghost start: int, ghost m: Rcv, ghost i: int) returns (unit: Unit)
      requires Stands(start, m) && i in m.buf && p == Slot(start, m.readPos, i, size)
      ensures unit in mine && i in units && unit == units[i] && unit.chunk == m.buf[i]
          && unit.flag == FlagOf(m.taken, i)
    {
      hide InSlots, Kept;
      KeptKeys(units, mine, m.buf, m.taken);
      SlotOf(slots[..], start, m.readPos, units, i);
      OwnUnit(units, mine, m.buf, m.taken, i);
      unit := slots[p];
    }

    /** The start slot is the slot of the last ACK exactly when everything acknowledged is read. */
    lemma AtEnd(p: int, m: Rcv)
      requires Stands(p, m)
      ensures p == lastAckPos <==> m.readPos == m.lastAck
      ensures p == Slot(p, m.readPos, m.readPos, size) && 0 <= p < size
    {
      hide InSlots, Kept;
    }

    /** Losses, ACKs and what was handed out do not matter to the buffer. */
    lemma SameStand(m: Rcv, m': Rcv)
      requires Represents(m) && Alike(m, m')
      ensures Represents(m')
    {
      hide InSlots, Kept;
    }
  }

  function Prepended(data: Payload, x: ReadResult): ReadResult {
    ReadResult(x.pos, x.notch, data + x.bytes)
  }

  /** The receiver after reading up to byte `notch` of packet `q`. */
  function Passed(m: Rcv, q: int, notch: nat): Rcv {
    m.(readPos := q, notch := notch, buf := map i | i in m.buf && !(m.readPos <= i < q) :: m.buf[i])
  }

  lemma PassedNone(m: Rcv)
    ensures Passed(m, m.readPos, m.notch) == m
  {
    assert (map i | i in m.buf && !(m.readPos <= i < m.readPos) :: m.buf[i]) == m.buf;
  }

  lemma PassedOne(m: Rcv, q: int, notch: nat)
    requires m.readPos <= q
    ensures
      var c := Passed(m, q, notch);
      Passed(m, q + 1, notch) == c.(readPos := q + 1, buf := c.buf - {q})
  {
    var c := Passed(m, q, notch);
    assert Passed(m, q + 1, notch).buf == c.buf - {q};
  }

  /** Byte `notch` of packet `q` is one to read, or everything has been read. */
  ghost predicate Inside(m: Rcv, q: int, notch: nat) {
    && m.readPos <= q <= m.lastAck
    && (q < m.lastAck ==> q in m.buf && notch < |m.buf[q].bytes|)
    && (notch > 0 ==> q < m.lastAck)
  }

  lemma InsideFrom(m: Rcv, q: int)
    requires RcvOrdered(m) && m.readPos <= q <= m.lastAck
    ensures Inside(m, q, if q == m.readPos then m.notch else 0)
  {
  }

  lemma StartInside(m: Rcv)
    requires RcvOrdered(m)
    ensures Inside(m, m.readPos, m.notch)
  {
  }

  lemma ReadStep(m: Rcv, q: int, notch: nat, data: Payload, rs: nat)
    requires RcvOrdered(m) && Inside(m, q, notch) && q < m.lastAck && rs > 0
    ensures
      var bytes := m.buf[q].bytes;
      var x := Prepended(data, ReadBytes(m.buf, q, m.lastAck, notch, rs));
      if |bytes| - notch <= rs then
        && x == Prepended(data + bytes[notch..|bytes|], ReadBytes(m.buf, q + 1, m.lastAck, 0, rs - (|bytes| - notch)))
        && Inside(m, q + 1, 0)
      else
        && x == Prepended(data + bytes[notch..notch + rs], ReadBytes(m.buf, q, m.lastAck, notch + rs, 0))
        && Inside(m, q, notch + rs)
  {
    InsideFrom(m, q + 1);
    var bytes := m.buf[q].bytes;
    if |bytes| - notch <= rs {
      var rest := ReadBytes(m.buf, q + 1, m.lastAck, 0, rs - (|bytes| - notch));
      assert data + (bytes[notch..] + rest.bytes) == data + bytes[notch..] + rest.bytes;
    } else {
      assert bytes[notch..][..rs] == bytes[notch..notch + rs];
    }
  }

  lemma ReadDone(m: Rcv, c: Rcv, data: Payload, rs: nat)
    requires c == Passed(m, c.readPos, c.notch) && (c.readPos == m.lastAck || rs == 0)
    ensures Prepended(data, ReadBytes(m.buf, c.readPos, m.lastAck, c.notch, rs)) == ReadResult(c.readPos, c.notch, data)
  {
    assert data + [] == data;
  }

  lemma WholeStep(m: Rcv, x: int)
    ensures M.Whole(m, x) <==> x >= m.lastAck || (M.Fresh(m, x) && (Last(m.buf[x]) || M.Whole(m, x + 1)))
  {
  }

  lemma DiscardNone(m: Rcv)
    requires Fits(m)
    ensures M.Discard(m, m.readPos) == m && m.readPos <= m.lastAck
  {
    assert (map i | i in m.buf && !(m.readPos <= i < m.readPos) :: m.buf[i]) == m.buf;
  }

  lemma {:induction false} WholeSame(m: Rcv, q: int, x: int)
    requires m.readPos <= q <= x
    ensures M.Whole(M.Discard(m, q), x) == M.Whole(m, x)
    decreases m.lastAck - x
  {
    if x < m.lastAck {
      WholeSame(m, q, x + 1);
    }
  }

  /** Whether skipping stops at packet `q`, as seen when everything before it has been passed. */
  lemma SkipStep(m: Rcv, q: int)
    requires m.readPos <= q
    ensures
      var c := M.Discard(m, q);
      && c.lastAck == m.lastAck
      && M.SkipTo(m, q)
         == if q >= m.lastAck || (M.Fresh(c, q) && First(c.buf[q]) && M.Whole(c, q)) then q else M.SkipTo(m, q + 1)
  {
    hide M.Whole, First, M.Discard, M.SkipTo;
    SkipUnfold(m, q);
    WholeSame(m, q, q);
    FirstSame(m, q);
  }

  lemma SkipUnfold(m: Rcv, q: int)
    ensures
      M.SkipTo(m, q)
      == if q >= m.lastAck || (M.Fresh(m, q) && First(m.buf[q]) && M.Whole(m, q)) then q else M.SkipTo(m, q + 1)
  {
    hide M.Whole, First;
  }

  lemma FirstSame(m: Rcv, q: int)
    requires m.readPos <= q
    ensures
      var c := M.Discard(m, q);
      && c.lastAck == m.lastAck
      && (M.Fresh(c, q) <==> M.Fresh(m, q)) && (q in m.buf ==> q in c.buf && c.buf[q] == m.buf[q])
      && (M.Fresh(m, q) ==> q in m.buf)
  {
  }

  lemma DiscardNext(m: Rcv, c: Rcv)
    requires m.readPos <= c.readPos && c == M.Discard(m, c.readPos)
    ensures
      var q := c.readPos;
      M.Discard(m, q + 1) == c.(readPos := q + 1, buf := c.buf - {q}, taken := c.taken - {q})
  {
    var q := c.readPos;
    assert M.Discard(m, q + 1).buf == c.buf - {q};
    assert M.Discard(m, q + 1).taken == c.taken - {q};
  }

  /** Slot of the packet that begins the message read so far, or -1. */
  function StartSlot(startPos: int, readPos: int, start: Option<int>, size: int): int {
    if start.Some? then Slot(startPos, readPos, start.value, size) else -1
  }

  function NextStart(m: Rcv, x: int, start: Option<int>): Option<int> {
    if !M.Fresh(m, x) then None else if First(m.buf[x]) then Some(x) else start
  }

  /** One turn of the search loop. */
  lemma SearchStep(m: Rcv, x: int, start: Option<int>)
    ensures
      var next := NextStart(m, x, start);
      M.Search(m, x, start)
      == if x > M.Furthest(m) then M.NotFound
         else if M.Fresh(m, x) && Last(m.buf[x]) && next.Some? && (x < m.lastAck || !InOrder(m.buf[x]))
         then M.Found(next.value, x)
         else M.Search(m, x + 1, next)
  {
    hide IsFirst, IsLast, OrderFlag;
  }

  /** The beginning, after the whole search, of a message read so far without a hole. */
  function Trail(m: Rcv, x: int, start: Option<int>): Option<int>
    decreases M.Furthest(m) - x
  {
    if x > M.Furthest(m) then start else Trail(m, x + 1, NextStart(m, x, start))
  }

  /** Everything from a beginning `start` up to the furthest packet is fresh and begins nothing. */
  ghost predicate Unbroken(m: Rcv, start: int, x: int) {
    forall i | start <= i < x :: M.Fresh(m, i) && (First(m.buf[i]) <==> i == start)
  }

  lemma {:induction false} TrailIff(m: Rcv, x: int, start: Option<int>, s: int)
    requires x <= M.Furthest(m) + 1 && s < M.Furthest(m) + 1
    requires start.Some? ==> start.value < x && Unbroken(m, start.value, x)
    requires s < x && start != Some(s) ==> !Unbroken(m, s, x)
    ensures Trail(m, x, start) == Some(s) <==> Unbroken(m, s, M.Furthest(m) + 1)
    decreases M.Furthest(m) - x
  {
    hide First;
    if x <= M.Furthest(m) {
      TrailIff(m, x + 1, NextStart(m, x, start), s);
    }
  }

  lemma EmptyIsNotFull(m: Rcv)
    requires Fits(m) && m.readPos == m.lastAck && m.curr <= m.lastAck
    ensures !M.Misled(m)
  {
  }

  lemma {:induction false} TrailBounds(m: Rcv, x: int, start: Option<int>)
    ensures
      var s := Trail(m, x, start);
      s == start || s.None? || x <= s.value <= M.Furthest(m)
    decreases M.Furthest(m) - x
  {
    if x <= M.Furthest(m) {
      TrailBounds(m, x + 1, NextStart(m, x, start));
    }
  }

  /** The fallback applies exactly if one message fills the buffer. */
  lemma Fallback(startPos: int, m: Rcv)
    requires Fits(m) && 0 <= startPos < m.bufSize && !(m.bufSize == 2 && m.readPos == m.lastAck == m.curr)
    ensures
      var start := Trail(m, m.readPos, None);
      var q := Slot(startPos, m.readPos, M.Furthest(m) + 1, m.bufSize);
      && (start.Some? ==> StartSlot(startPos, m.readPos, start, m.bufSize) != -1)
      && (M.Fills(m) <==> start.Some? && (q + 1) % m.bufSize == StartSlot(startPos, m.readPos, start, m.bufSize))
  {
    hide First, Trail;
    var start, end := Trail(m, m.readPos, None), M.Furthest(m);
    TrailBounds(m, m.readPos, None);
    TrailIff(m, m.readPos, None, m.readPos);
    if start.Some? {
      TrailIff(m, m.readPos, None, start.value);
      assert M.Fresh(m, end);
      ModSmall(Slot(startPos, m.readPos, end + 1, m.bufSize) + 1, m.bufSize);
    }
  }

  lemma SkippedEnd(m: Rcv)
    requires Fits(m) && !(m.readPos == m.lastAck && m.curr <= m.lastAck)
    ensures
      var c := M.Discard(m, M.SkipTo(m, m.readPos));
      !(c.bufSize == 2 && c.readPos == c.lastAck == c.curr)
  {
  }

  /** A found message consists of unread packets. */
  lemma HitIsFresh(c: Rcv, chunks: seq<Chunk>, f: M.Found)
    requires f.Found? ==> M.Deliverable(c, chunks, f.lo, f.hi)
    requires Fits(c)
    ensures f.Found? ==> c.readPos <= f.lo <= f.hi <= c.curr && forall i | f.lo <= i <= f.hi :: M.Fresh(c, i)
  {
    hide First, Last, InOrder;
    if f.Found? {
      assert M.Fresh(c, f.hi);
    }
  }

  lemma ReadMsgIs(m: Rcv, c: Rcv, f: M.Found, room: nat)
    requires (c, f) == M.Scan(m)
    ensures
      var r := M.ReadMsg(m, room);
      match f
      case Found(lo, hi) =>
        && r == M.Deliver(c, lo, hi, room)
        && r.messages
           == m.messages + [Message(lo, hi, room, M.Take(M.Gather(c.buf, lo, hi), room), hi >= c.lastAck)]
      case NotFound => r == c && r.messages == m.messages
  {
    hide M.SkipTo, M.Search, M.Take, M.Gather;
  }

  /** The receiver when the packets `lo..x` of a message have been copied out. */
  ghost function Eaten(c: Rcv, lo: int, x: int, ahead: bool): Rcv {
    if ahead then c.(taken := c.taken + Range(lo, x - 1))
    else c.(readPos := x, buf := map i | i in c.buf && !(lo <= i < x) :: c.buf[i])
  }

  lemma EatenNone(c: Rcv, lo: int)
    ensures Eaten(c, lo, lo, true) == c
    ensures lo == c.readPos ==> Eaten(c, lo, lo, false) == c
  {
    assert c.taken + Range(lo, lo - 1) == c.taken;
    assert (map i | i in c.buf && !(lo <= i < lo) :: c.buf[i]) == c.buf;
  }

  lemma EatenNext(c: Rcv, lo: int, x: int, ahead: bool)
    requires lo <= x && M.Fresh(c, x) && (!ahead ==> lo == c.readPos)
    ensures
      var d := Eaten(c, lo, x, ahead);
      && d.lastAck == c.lastAck && M.Fresh(d, x) && d.buf[x] == c.buf[x] && d.readPos == if ahead then c.readPos else x
    ensures
      var d := Eaten(c, lo, x, ahead);
      Eaten(c, lo, x + 1, ahead)
      == if ahead then d.(taken := d.taken + {x}) else d.(readPos := x + 1, buf := d.buf - {x})
  {
    var d := Eaten(c, lo, x, ahead);
    assert c.taken + Range(lo, x) == (c.taken + Range(lo, x - 1)) + {x};
    assert (map i | i in c.buf && !(lo <= i < x + 1) :: c.buf[i])
           == (map i | i in c.buf && !(lo <= i < x) :: c.buf[i]) - {x};
  }

  lemma EatenAll(c: Rcv, lo: int, hi: int, room: nat)
    ensures
      var r, e := M.Deliver(c, lo, hi, room), Eaten(c, lo, hi + 1, hi >= c.lastAck);
      r == e.(messages := r.messages)
  {
    hide M.Take, M.Gather;
  }

  lemma TakeNone(buf: map<int, Chunk>, lo: int, room: nat)
    ensures M.Take(M.Gather(buf, lo, lo - 1), room) == []
  {
  }

  lemma {:induction false} GatherSnoc(buf: map<int, Chunk>, lo: int, x: int)
    requires lo <= x && forall i | lo <= i <= x :: i in buf
    ensures M.Gather(buf, lo, x) == M.Gather(buf, lo, x - 1) + buf[x].bytes
    decreases x - lo
  {
    if lo < x {
      GatherSnoc(buf, lo + 1, x);
    }
  }

  /** Another packet is copied as far as there is room. */
  lemma TakeNext(buf: map<int, Chunk>, lo: int, x: int, room: nat)
    requires lo <= x && forall i | lo <= i <= x :: i in buf
    ensures
      var done, bytes := M.Take(M.Gather(buf, lo, x - 1), room), buf[x].bytes;
      var n := if |bytes| > room - |done| then room - |done| else |bytes|;
      && |done| <= room
      && M.Take(M.Gather(buf, lo, x), room) == done + bytes[..n]
      && (n == 0 ==> M.Take(M.Gather(buf, lo, x), room) == done)
  {
    hide M.Gather;
    GatherSnoc(buf, lo, x);
  }

  /** The unit of a packet. */
  lemma OwnUnit(units: map<int, Unit>, mine: set<Unit>, buf: map<int, Chunk>, taken: set<int>, i: int)
    requires Kept(units, mine, buf, taken) && i in buf
    ensures i in units && units[i] in mine && units[i].chunk == buf[i] && units[i].flag == FlagOf(taken, i)
  {
  }

  /** What storing packet `i` changes. */
  lemma AddedFacts(m: Rcv, i: int, chunk: Chunk)
    requires Fits(m) && m.lastAck <= i && i - m.lastAck < Avail(m)
    ensures m.readPos <= i < m.readPos + m.bufSize
    ensures i in m.buf ==> OnData(m, i, chunk).0 == m && i <= M.Furthest(m)
    ensures i !in m.buf ==>
              var m' := OnData(m, i, chunk).0;
              && Fits(m') && i !in m.taken
              && m' == m.(buf := m.buf[i := chunk], loss := m'.loss, curr := m'.curr)
              && M.Furthest(m') == if i > M.Furthest(m) then i else M.Furthest(m)
  {
  }

  lemma KeptMore(units: map<int, Unit>, mine: set<Unit>, buf: map<int, Chunk>, taken: set<int>, i: int, u: Unit)
    requires Kept(units, mine, buf, taken) && i !in units && i !in taken && u !in mine && u.flag == 1
    ensures Kept(units[i := u], mine + {u}, buf[i := u.chunk], taken)
  {
    OwnsMore(units, mine, i, u);
  }

  lemma KeptLess(units: map<int, Unit>, mine: set<Unit>, buf: map<int, Chunk>, taken: set<int>, i: int)
    requires Kept(units, mine, buf, taken) && i in units
    ensures Kept(units - {i}, mine - {units[i]}, buf - {i}, taken)
  {
    OwnsLess(units, mine, i);
    assert (units - {i}).Keys == (buf - {i}).Keys;
  }

  lemma KeptKeys(units: map<int, Unit>, mine: set<Unit>, buf: map<int, Chunk>, taken: set<int>)
    requires Kept(units, mine, buf, taken)
    ensures units.Keys == buf.Keys
  {
  }

  // ----- Several buffers on one queue -----

  ghost function Union(parts: seq<set<Unit>>): set<Unit> {
    if parts == [] then {} else parts[0] + Union(parts[1..])
  }

  ghost function Total(parts: seq<set<Unit>>): nat {
    if parts == [] then 0 else |parts[0]| + Total(parts[1..])
  }

  /** Every flagged unit sits in one slot of one buffer; `parts` lists what each buffer holds. */
  ghost predicate Shared(parts: seq<set<Unit>>, used: set<Unit>) {
    && (forall i, j :: 0 <= i < j < |parts| ==> parts[i] !! parts[j])
    && Union(parts) == used
  }

  lemma {:induction false} InUnion(parts: seq<set<Unit>>, u: Unit)
    ensures u in Union(parts) <==> exists i :: 0 <= i < |parts| && u in parts[i]
  {
    if parts != [] {
      InUnion(parts[1..], u);
      if i :| 0 <= i < |parts| && u in parts[i] {
        assert i > 0 ==> u in parts[1..][i - 1];
      }
    }
  }

  lemma {:induction false} PartsCount(parts: seq<set<Unit>>, used: set<Unit>)
    requires Shared(parts, used)
    ensures |used| == Total(parts)
  {
    if parts != [] {
      var rest := parts[1..];
      PartsCount(rest, Union(rest));
      forall u | u in parts[0]
        ensures u !in Union(rest)
      {
        InUnion(rest, u);
      }
    }
  }

  lemma {:induction false} UnionSplit(parts: seq<set<Unit>>, k: nat, mine: set<Unit>)
    requires k < |parts|
    ensures Union(parts[k := mine]) == mine + Union(parts[k := {}])
  {
    if k == 0 {
      assert parts[0 := mine][1..] == parts[1..] && parts[0 := {}][1..] == parts[1..];
    } else {
      UnionSplit(parts[1..], k - 1, mine);
      assert parts[k := mine][1..] == parts[1..][k - 1 := mine] && parts[k := {}][1..] == parts[1..][k - 1 := {}];
    }
  }

  /** One buffer takes or frees units and leaves those of the others alone: they still share. */
  lemma PartReplaced(parts: seq<set<Unit>>, used: set<Unit>, k: nat, mine: set<Unit>, used': set<Unit>)
    requires Shared(parts, used) && k < |parts|
    requires mine <= used' && used' - mine == used - parts[k]
    ensures Shared(parts[k := mine], used')
  {
    hide Union;
    var rest := parts[k := {}];
    UnionSplit(parts, k, mine);
    UnionSplit(parts, k, parts[k]);
    assert parts[k := parts[k]] == parts;
    forall u | u in parts[k]
      ensures u !in Union(rest)
    {
      InUnion(rest, u);
    }
    assert Union(rest) == used - parts[k];
    assert mine + (used' - mine) == used';
    forall i | 0 <= i < |parts| && i != k
      ensures parts[i] !! mine
    {
      forall u | u in parts[i]
        ensures u !in mine
      {
        OtherPart(parts, used, k, i, u);
        assert u in used' - mine;
      }
    }
  }

  lemma OtherPart(parts: seq<set<Unit>>, used: set<Unit>, k: nat, i: nat, u: Unit)
    requires Shared(parts, used) && k < |parts| && i < |parts| && u in parts[i] && i != k
    ensures u in used - parts[k]
  {
    InUnion(parts, u);
  }

  /** The slots that hold a unit. */
  function Occupied(slots: seq<Unit?>): set<int> {
    set p | 0 <= p < |slots| && slots[p] != null
  }

  lemma {:induction false} OccupiedCount(slots: seq<Unit?>, start: int, readPos: int, units: map<int, Unit>)
    requires InSlots(slots, start, readPos, units)
    ensures |Occupied(slots)| == |units|
    decreases units.Keys
  {
    hide InSlots;
    if units.Keys == {} {
      forall p | 0 <= p < |slots|
        ensures slots[p] == null
      {
        HeadInRange(slots, start, readPos, units);
        var i := SlotOnto(start, readPos, p, |slots|);
        SlotOf(slots, start, readPos, units, i);
      }
      assert Occupied(slots) == {};
    } else {
      EmptyOrInhabited(units.Keys);
      var i :| i in units.Keys;
      HasRange(slots, start, readPos, units, i);
      SlotOf(slots, start, readPos, units, i);
      Clear(slots, start, readPos, units, i);
      var p := Slot(start, readPos, i, |slots|);
      OccupiedCount(slots[p := null], start, readPos, units - {i});
      assert Occupied(slots[p := null]) == Occupied(slots) - {p};
      assert (units - {i}).Keys == units.Keys - {i};
      assert |units - {i}| == |units.Keys| - 1;
    }
  }

  lemma HeadInRange(slots: seq<Unit?>, start: int, readPos: int, units: map<int, Unit>)
    requires InSlots(slots, start, readPos, units)
    ensures 0 <= start < |slots|
  {
  }

  lemma HasRange(slots: seq<Unit?>, start: int, readPos: int, units: map<int, Unit>, i: int)
    requires InSlots(slots, start, readPos, units) && i in units
    ensures readPos <= i < readPos + |slots|
  {
  }

  /** What each buffer holds. */
  ghost function Mines(bufs: seq<RcvBuffer>): (parts: seq<set<Unit>>)
    reads bufs`mine
    ensures |parts| == |bufs| && forall i :: 0 <= i < |bufs| ==> parts[i] == bufs[i].mine
  {
    if bufs == [] then [] else Mines(bufs[..|bufs| - 1]) + [bufs[|bufs| - 1].mine]
  }

  /** The number of occupied slots of all buffers together. */
  ghost function TotalOccupied(bufs: seq<RcvBuffer>): nat
    reads set b <- bufs :: b.slots
  {
    if bufs == [] then 0 else |Occupied(bufs[0].slots[..])| + TotalOccupied(bufs[1..])
  }

  /** Different buffers on one queue, each as its model says; every flagged unit sits in one of them. */
  ghost predicate Sharing(bufs: seq<RcvBuffer>, ms: seq<Rcv>, q: UnitQueue)
    reads bufs, set b <- bufs :: b.slots, set b <- bufs, u <- b.mine :: u, q, q.all
  {
    && |bufs| == |ms|
    && (forall i :: 0 <= i < |bufs| ==> bufs[i].queue == q && bufs[i].Represents(ms[i]))
    && (forall i, j :: 0 <= i < j < |bufs| ==> bufs[i] != bufs[j] && bufs[i].slots != bufs[j].slots)
    && Shared(Mines(bufs), q.used)
  }

  /** The counter of the pool is the number of occupied slots of all buffers together. */
  lemma SharedCount(bufs: seq<RcvBuffer>, ms: seq<Rcv>, q: UnitQueue)
    requires Sharing(bufs, ms, q) && q.Counted()
    ensures q.count == TotalOccupied(bufs)
  {
    hide Union, Kept, InSlots, Occupied, Total;
    PartsCount(Mines(bufs), q.used);
    EachOccupied(bufs, ms);
  }

  lemma {:induction false} EachOccupied(bufs: seq<RcvBuffer>, ms: seq<Rcv>)
    requires |bufs| == |ms| && forall i :: 0 <= i < |bufs| ==> bufs[i].Represents(ms[i])
    ensures TotalOccupied(bufs) == Total(Mines(bufs))
  {
    hide InSlots, Occupied, Kept;
    if bufs != [] {
      var b, m := bufs[0], ms[0];
      assert b.Represents(m);
      OccupiedCount(b.slots[..], b.startPos, m.readPos, b.units);
      OwnCount(b.units, b.mine, m.buf, m.taken);
      EachOccupied(bufs[1..], ms[1..]);
      assert Mines(bufs)[1..] == Mines(bufs[1..]);
    }
  }

  lemma OwnCount(units: map<int, Unit>, mine: set<Unit>, buf: map<int, Chunk>, taken: set<int>)
    requires Kept(units, mine, buf, taken)
    ensures |mine| == |units|
  {
  }

  /** A buffer that is left alone stays as it was, as long as the pool still counts its units. */
  twostate lemma LeftAlone(b: RcvBuffer, new m: Rcv)
    requires old(b.Represents(m))
    requires Untouched(b)
    requires b.queue.Counted() && b.mine <= b.queue.used
    ensures b.Represents(m)
  {
    hide InSlots, Owns;
    assert b.slots[..] == old(b.slots[..]);
  }

  twostate predicate Untouched(b: RcvBuffer)
    reads b, b.slots, b.mine
  {
    unchanged(b) && unchanged(b.slots) && unchanged(b.mine)
  }

  /** When one buffer takes or frees units and leaves those of the others alone, all of them still
      hold what their models say, no unit sits in two slots and none is flagged without a slot. */
  twostate lemma SharedKept(bufs: seq<RcvBuffer>, new ms: seq<Rcv>, new k: nat, new m: Rcv)
    requires k < |bufs| && old(Sharing(bufs, ms, bufs[k].queue)) && bufs[k].Represents(m)
    requires forall i :: 0 <= i < |bufs| && i != k ==> Untouched(bufs[i])
    requires bufs[k].Others() == old(bufs[k].Others())
    ensures Sharing(bufs, ms[k := m], bufs[k].queue)
  {
    hide InSlots, Kept, Fits, Shared, RcvBuffer.Stands;
    ghost var was, q := old(Mines(bufs)), bufs[k].queue;
    Ready(bufs[k], m);
    forall i | 0 <= i < |bufs| && i != k
      ensures bufs[i].mine <= q.used && bufs[i].queue == q
    {
      OtherUnits(was, old(q.used), k, i);
    }
    AllLeftAlone(bufs, ms, k);
    PartReplaced(was, old(q.used), k, bufs[k].mine, q.used);
    assert Mines(bufs) == was[k := bufs[k].mine];
  }

  twostate lemma AllLeftAlone(bufs: seq<RcvBuffer>, new ms: seq<Rcv>, new k: nat)
    requires |bufs| == |ms| && k < |bufs| && bufs[k].queue.Counted()
    requires old(forall i :: 0 <= i < |bufs| && i != k ==> bufs[i].Represents(ms[i]))
    requires forall i :: 0 <= i < |bufs| && i != k ==> Untouched(bufs[i])
    requires forall i :: 0 <= i < |bufs| && i != k ==>
               bufs[i].queue == bufs[k].queue && bufs[i].mine <= bufs[k].queue.used
    ensures forall i :: 0 <= i < |bufs| && i != k ==> bufs[i].Represents(ms[i])
  {
    hide Untouched, RcvBuffer.Stands, UnitQueue.Counted;
    var n := 0;
    while n < |bufs|
      invariant 0 <= n <= |bufs| && forall i :: 0 <= i < n && i != k ==> bufs[i].Represents(ms[i])
    {
      if n != k {
        LeftAlone(bufs[n], ms[n]);
      }
      n := n + 1;
    }
  }

  lemma Ready(b: RcvBuffer, m: Rcv)
    requires b.Represents(m)
    ensures b.queue.Counted() && b.mine <= b.queue.used
  {
  }

  lemma OtherUnits(parts: seq<set<Unit>>, used: set<Unit>, k: nat, i: nat)
    requires Shared(parts, used) && k < |parts| && i < |parts| && i != k
    ensures parts[i] <= used - parts[k]
  {
    forall u | u in parts[i]
      ensures u in used - parts[k]
    {
      OtherPart(parts, used, k, i, u);
    }
  }

  /** Another connection joins. */
  method Attach(bufs: seq<RcvBuffer>, q: UnitQueue, size: nat, ghost isn: int, ghost stream: bool, ghost ms: seq<Rcv>)
    returns (b: RcvBuffer)
    requires 0 < size && q.Counted() && Sharing(bufs, ms, q)
    ensures fresh(b) && Sharing(bufs + [b], ms + [InitRcv(isn, size, stream)], q)
  {
    hide InSlots, Kept, Fits, Shared, RcvBuffer.Stands, UnitQueue.Counted;
    b := new RcvBuffer(q, size, isn, stream);
    EmptyPart(Mines(bufs), q.used);
    assert (bufs + [b])[..|bufs|] == bufs;
  }

  lemma EmptyPart(parts: seq<set<Unit>>, used: set<Unit>)
    requires Shared(parts, used)
    ensures Shared(parts + [{}], used)
  {
    hide Union;
    UnionWithEmpty(parts);
  }

  lemma {:induction false} UnionWithEmpty(parts: seq<set<Unit>>)
    ensures Union(parts + [{}]) == Union(parts)
  {
    if parts != [] {
      UnionWithEmpty(parts[1..]);
      assert (parts + [{}])[1..] == parts[1..] + [{}];
    }
  }

  /** A packet arrives for one of the connections. */
  method AddDataTo(bufs: seq<RcvBuffer>, k: nat, unit: Unit, offset: int, ghost ms: seq<Rcv>) returns (stored: bool)
    requires k < |bufs| && Sharing(bufs, ms, bufs[k].queue) && 0 <= offset < Avail(ms[k])
    requires unit in bufs[k].queue.all && unit !in bufs[k].queue.used
    modifies bufs[k], bufs[k].slots, bufs[k].queue`count, bufs[k].queue`used, unit`flag
    ensures stored <==> ms[k].lastAck + offset !in ms[k].buf
    ensures Sharing(bufs, ms[k := OnData(ms[k], ms[k].lastAck + offset, unit.chunk).0], bufs[k].queue)
  {
    hide InSlots, Kept, Fits, OnData, RcvBuffer.Stands, UnitQueue.Counted;
    UsedUnits(bufs, ms, bufs[k].queue);
    stored := bufs[k].AddData(unit, offset, ms[k]);
    SharedKept(bufs, ms, k, OnData(ms[k], ms[k].lastAck + offset, unit.chunk).0);
  }

  lemma UsedUnits(bufs: seq<RcvBuffer>, ms: seq<Rcv>, q: UnitQueue)
    requires Sharing(bufs, ms, q)
    ensures forall i :: 0 <= i < |bufs| ==> bufs[i].mine <= q.used
    ensures forall i, j :: 0 <= i < j < |bufs| ==> bufs[i].mine !! bufs[j].mine
  {
    forall i, u | 0 <= i < |bufs| && u in bufs[i].mine
      ensures u in q.used
    {
      InUnion(Mines(bufs), u);
    }
  }

  /** One of the applications reads. */
  method ReadBufferOf(bufs: seq<RcvBuffer>, k: nat, len: nat, ghost ms: seq<Rcv>) returns (data: Payload)
    requires k < |bufs| && Sharing(bufs, ms, bufs[k].queue) && RcvOrdered(ms[k])
    modifies bufs[k], bufs[k].slots, bufs[k].queue`count, bufs[k].queue`used, bufs[k].mine
    ensures data == ReadBytes(ms[k].buf, ms[k].readPos, ms[k].lastAck, ms[k].notch, len).bytes
    ensures Sharing(bufs, ms[k := Read(ms[k], len)], bufs[k].queue)
  {
    hide InSlots, Kept, Fits, Read, ReadBytes, RcvOrdered, RcvBuffer.Stands, UnitQueue.Counted;
    UsedUnits(bufs, ms, bufs[k].queue);
    data := bufs[k].ReadBuffer(len, ms[k]);
    SharedKept(bufs, ms, k, Read(ms[k], len));
  }

  /** One of the applications reads a message. */
  method ReadMsgOf(bufs: seq<RcvBuffer>, k: nat, len: nat, ghost ms: seq<Rcv>, ghost chunks: seq<Chunk>)
    returns (data: Payload)
    requires k < |bufs| && Sharing(bufs, ms, bufs[k].queue)
    requires RcvOrdered(ms[k]) && M.MsgInv(ms[k], chunks) && ms[k].lastAck <= ms[k].isn + |chunks| && ms[k].notch == 0
    modifies bufs[k], bufs[k].slots, bufs[k].queue`count, bufs[k].queue`used, bufs[k].mine
    ensures data == M.Handed(ms[k], len) && Sharing(bufs, ms[k := M.ReadMsg(ms[k], len)], bufs[k].queue)
  {
    hide InSlots, Kept, Fits, M.ReadMsg, M.Handed, M.MsgInv, RcvOrdered, RcvBuffer.Stands, UnitQueue.Counted;
    UsedUnits(bufs, ms, bufs[k].queue);
    data := bufs[k].ReadMsg(len, ms[k], chunks);
    SharedKept(bufs, ms, k, M.ReadMsg(ms[k], len));
  }
}
