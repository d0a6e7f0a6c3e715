/** The ACK history window: CACKWindow on its circular arrays. */
module AckWindow {
  import opened Arith
  import opened Circular
  import opened SeqNo

  /** One ACK sent: its number, the data sequence number it carried, and when. */
  datatype Record = Record(no: int32, ack: int32, time: int)

  /** Position of the first record numbered `no`, or the length when there is none. */
  function Find(records: seq<Record>, no: int32): (k: nat)
    ensures k <= |records|
    ensures k < |records| ==> records[k].no == no
    ensures forall j :: 0 <= j < k ==> records[j].no != no
  {
    if records == [] || records[0].no == no then 0 else Find(records[1..], no) + 1
  }

  lemma {:induction false} FindIs(records: seq<Record>, no: int32, k: nat)
    requires k < |records| && records[k].no == no
    requires forall j :: 0 <= j < k ==> records[j].no != no
    ensures Find(records, no) == k
  {
    if k > 0 {
      assert records[0].no != no;
      FindIs(records[1..], no, k - 1);
    }
  }

  /** The arrays hold the records from slot `tail` on. */
  ghost predicate Holds(nos: seq<int32>, acks: seq<int32>, times: seq<int>, size: int, tail: int,
      records: seq<Record>)
  {
    && |nos| == |acks| == |times| == size
    && 0 <= tail < size && |records| <= size
    && forall k :: 0 <= k < |records| ==>
         records[k] == Record(nos[Slot(tail, 0, k, size)], acks[Slot(tail, 0, k, size)], times[Slot(tail, 0, k, size)])
  }

  lemma HoldsOne(nos: seq<int32>, acks: seq<int32>, times: seq<int>, size: int, tail: int, records: seq<Record>, k: nat)
    requires Holds(nos, acks, times, size, tail, records) && k < |records|
    ensures |nos| == |acks| == |times| == size && 0 <= Slot(tail, 0, k, size) < size
    ensures records[k] == Record(nos[Slot(tail, 0, k, size)], acks[Slot(tail, 0, k, size)],
        times[Slot(tail, 0, k, size)])
  {
  }

  lemma Append(nos: seq<int32>, acks: seq<int32>, times: seq<int>, size: int, tail: int, records: seq<Record>,
      r: Record)
    requires Holds(nos, acks, times, size, tail, records) && |records| < size
    ensures
      var p := Slot(tail, 0, |records|, size);
      && 0 <= p < size
      && Holds(nos[p := r.no], acks[p := r.ack], times[p := r.time], size, tail, records + [r])
  {
  }

  lemma Forget(nos: seq<int32>, acks: seq<int32>, times: seq<int>, size: int, tail: int, records: seq<Record>, k: nat)
    requires Holds(nos, acks, times, size, tail, records) && k <= |records| && k < size
    ensures Holds(nos, acks, times, size, Slot(tail, 0, k, size), records[k..])
  {
    forall j | 0 <= j < |records| - k
      ensures Slot(Slot(tail, 0, k, size), 0, j, size) == Slot(tail, 0, k + j, size)
    {
    }
  }

  class AckWindow {
    const size: int
    const ackSeqNo: array<int32>
    const ack: array<int32>
    const timeStamp: array<int>
    var head: int
    var tail: int

    /** The records from the oldest to the youngest. */
    ghost var records: seq<Record>

    ghost predicate Valid()
      reads this, ackSeqNo, ack, timeStamp
    {
      && 2 <= size
      && ackSeqNo.Length == ack.Length == timeStamp.Length == size && ackSeqNo != ack
      && 0 <= tail < size && |records| < size
      && head == Slot(tail, 0, |records|, size)
      && Holds(ackSeqNo[..], ack[..], timeStamp[..], size, tail, records)
    }

    constructor (size: int)
      requires 2 <= size
      ensures Valid() && records == [] && this.size == size
      ensures fresh(ackSeqNo) && fresh(ack) && fresh(timeStamp)
    {
      this.size := size;
      ackSeqNo := new int32[size];
      ack := new int32[size];
      timeStamp := new int[size];
      head, tail := 0, 0;
      records := [];
      new;
      ackSeqNo[0] := -1;
    }

    /** Record an ACK; a full window forgets its oldest record. */
    method Store(no: int32, ackNo: int32, now: int)
      requires Valid()
      modifies this, ackSeqNo, ack, timeStamp
      ensures Valid()
      ensures
        records == (if |old(records)| < size - 1 then old(records) else old(records)[1..])
                   + [Record(no, ackNo, now)]
    {
      hide Holds;
      ghost var nos, acks, times := ackSeqNo[..], ack[..], timeStamp[..];
      Append(nos, acks, times, size, tail, records, Record(no, ackNo, now));
      ModSmall(head + 1, size);
      ModSmall(tail + 1, size);
      ackSeqNo[head] := no;
      ack[head] := ackNo;
      timeStamp[head] := now;
      records := records + [Record(no, ackNo, now)];
      assert ackSeqNo[..] == nos[head := no] && ack[..] == acks[head := ackNo] && timeStamp[..] == times[head := now];
      head := (head + 1) % size;
      if head == tail {
        Forget(ackSeqNo[..], ack[..], timeStamp[..], size, tail, records, 1);
        tail := (tail + 1) % size;
        records := records[1..];
      }
    }

    /** Match an ACK2: report the data sequence number of the record with that number and the
        time since, and drop it together with all older ones. */
    method Acknowledge(no: int32, now: int) returns (rtt: int, ackNo: int32)
      requires Valid()
      modifies this, ackSeqNo
      ensures Valid()
      ensures
        var k := Find(old(records), no);
        if k < |old(records)| then
          && rtt == now - old(records)[k].time && ackNo == old(records)[k].ack
          && records == old(records)[k + 1..]
        else rtt == -1 && records == old(records)
    {
      hide Holds;
      ghost var nos, acks, times := ackSeqNo[..], ack[..], timeStamp[..];
      if head >= tail {
        // the head has not passed the physical end of the arrays
        var i := tail;
        while i < head
          invariant tail <= i <= head && head == tail + |records|
          invariant Valid() && records == old(records)
          invariant ackSeqNo[..] == nos && ack[..] == acks && timeStamp[..] == times
          invariant forall j :: 0 <= j < i - tail ==> records[j].no != no
        {
          HoldsOne(nos, acks, times, size, tail, records, i - tail);
          if no == ackSeqNo[i] {
            FindIs(records, no, i - tail);
            ackNo := ack[i];
            rtt := now - timeStamp[i];
            DropUnwrapped(i);
            return;
          }
          i := i + 1;
        }
        FindNone(records, no);
        return -1, 0;
      }
      // the head is behind the tail
      var j, n := tail, head + size;
      while j < n
        invariant tail <= j <= n == tail + |records|
        invariant Valid() && records == old(records)
        invariant ackSeqNo[..] == nos && ack[..] == acks && timeStamp[..] == times
        invariant forall i :: 0 <= i < j - tail ==> records[i].no != no
      {
        HoldsOne(nos, acks, times, size, tail, records, j - tail);
        ModSmall(j, size);
        if no == ackSeqNo[j % size] {
          FindIs(records, no, j - tail);
          ackNo := ack[j % size];
          rtt := now - timeStamp[j % size];
          DropWrapped(j % size, j - tail);
          return;
        }
        j := j + 1;
      }
      FindNone(records, no);
      return -1, 0;
    }

    /** Drop the record in slot `i` and all before it, in the unwrapped layout. */
    method DropUnwrapped(i: int)
      requires Valid() && tail <= i < head
      modifies this, ackSeqNo
      ensures Valid() && records == old(records)[i - old(tail) + 1..]
    {
      hide Holds;
      Forget(ackSeqNo[..], ack[..], timeStamp[..], size, tail, records, i - tail + 1);
      ModSmall(i + 1, size);
      records := records[i - tail + 1..];
      if i + 1 == head {
        tail, head := 0, 0;
        ackSeqNo[0] := -1;
        HoldsNone(ackSeqNo[..], ack[..], timeStamp[..], size);
      } else {
        tail := (i + 1) % size;
      }
    }

    /** Drop record `k` in slot `j` and all before it, in the wrapped layout.  The source also
        asks whether `j` is the head's slot, which no record ever occupies. */
    method DropWrapped(j: int, ghost k: nat)
      requires Valid() && head < tail && k < |records| && j == Slot(tail, 0, k, size)
      modifies this, ackSeqNo
      ensures Valid() && records == old(records)[k + 1..]
    {
      hide Holds;
      Forget(ackSeqNo[..], ack[..], timeStamp[..], size, tail, records, k + 1);
      ModSmall(j + 1, size);
      records := records[k + 1..];
      if j == head {
        assert false;
      } else {
        tail := (j + 1) % size;
      }
    }
  }

  lemma HoldsNone(nos: seq<int32>, acks: seq<int32>, times: seq<int>, size: int)
    requires |nos| == |acks| == |times| == size && 0 < size
    ensures Holds(nos, acks, times, size, 0, [])
  {
  }

  lemma {:induction false} FindNone(records: seq<Record>, no: int32)
    requires forall j :: 0 <= j < |records| ==> records[j].no != no
    ensures Find(records, no) == |records|
  {
    if records != [] {
      assert records[0].no != no;
      FindNone(records[1..], no);
    }
  }
}
