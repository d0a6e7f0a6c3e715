/** The receiving end of a connection on wire numbers: the parts of CUDT that take in data and
    ACK2s, send ACKs and loss reports, and hand data to the application. */
module Receiver {
  import opened SeqNo
  import opened IntSets
  import opened Stream
  import opened LossCoding
  import R = RcvModel
  import M = MsgModel
  import Q = UnitQueue
  import B = RcvBuffer
  import L = RcvLossList
  import W = AckWindow

  /** An ACK as it goes out: its number, the data sequence number and the free buffer space. */
  datatype WireAck = WireAck(no: int32, ack: int32, avail: int)

  function ToLite(a: Option<R.Ack>): Option<int32> {
    if a.Some? && a.value.LiteAck? then Some(Wire(a.value.ack)) else None
  }

  function ToWire(a: Option<R.Ack>): Option<WireAck> {
    if a.Some? && a.value.FullAck? then Some(WireAck(Wire(a.value.no), Wire(a.value.ack), a.value.avail)) else None
  }

  function ToReport(n: Option<R.Nak>): Option<seq<int32>> {
    if n.Some? then Some(EncodeOne(Loss(n.value.lo, n.value.hi))) else None
  }

  /** The records of the ACK window, number for number. */
  ghost predicate Matches(records: seq<W.Record>, history: seq<R.AckRec>) {
    && |records| == |history|
    && forall k :: 0 <= k < |history| ==> records[k].no == Wire(history[k].no) && records[k].ack == Wire(history[k].ack)
  }

  /** The ACK sent joins the window with its number and the time `now`; a full window forgets its
      oldest record. */
  predicate Timed(before: seq<W.Record>, after: seq<W.Record>, pkt: Option<WireAck>, now: int) {
    after
    == if pkt.None? then before
       else (if |before| < R.HISTORY_LIMIT then before else before[1..]) + [W.Record(pkt.value.no, pkt.value.ack, now)]
  }

  /** The reading is positive if the ACK2 answers a recorded ACK that was sent earlier. */
  predicate Measured(records: seq<W.Record>, no: int32, now: int, rttPositive: bool) {
    var k := W.Find(records, no);
    rttPositive <==> k < |records| && records[k].time < now
  }

  /** Then the number that this ACK carried becomes the one known to be used, if it is ahead of it. */
  predicate Raised(records: seq<W.Record>, no: int32, before: int32, after: int32, rttPositive: bool) {
    var k := W.Find(records, no);
    after == if rttPositive && k < |records| && Later(records[k].ack, before) then records[k].ack else before
  }

  class Receiver {
    const buffer: B.RcvBuffer
    const loss: L.RcvLossList
    const window: W.AckWindow
    var lastAck: int32
    var lastAckAck: int32
    var curr: int32
    var ackSeqNo: int32

    ghost predicate Numbers(r: R.Rcv)
      reads this
    {
      && lastAck == Wire(r.lastAck) && lastAckAck == Wire(r.lastAckAck)
      && curr == CurrWire(r.isn, r.curr) && ackSeqNo == Wire(|r.ackLog|)
    }

    /** The loss list holds these numbers, with room for a buffer of `n` packets. */
    ghost predicate Listed(lost: set<int>, n: nat)
      reads loss, loss.data1, loss.data2, loss.next, loss.prior
    {
      loss.Valid() && n <= loss.size && loss.Contents() == lost
    }

    ghost predicate Recorded(history: seq<R.AckRec>)
      reads window, window.ackSeqNo, window.ack, window.timeStamp
    {
      window.Valid() && window.size == R.HISTORY_LIMIT + 1 && Matches(window.records, history)
    }

    /** The loss list and the ACK window have their own arrays. */
    ghost predicate Separate() {
      && loss.data1 != window.ackSeqNo && loss.data1 != window.ack
      && loss.data2 != window.ackSeqNo && loss.data2 != window.ack
      && loss.next != window.timeStamp && loss.prior != window.timeStamp
    }

    ghost predicate Represents(r: R.Rcv)
      reads this, loss, loss.data1, loss.data2, loss.next, loss.prior
      reads window, window.ackSeqNo, window.ack, window.timeStamp
      reads buffer, buffer.slots, buffer.queue, buffer.queue.all, buffer.mine
    {
      && Separate() && Numbers(r) && Listed(r.loss, r.bufSize) && Recorded(r.history) && buffer.Represents(r)
          && r.bufSize < TH
    }

    /** Everything this end is made of, except the units of the shared pool. */
    ghost function Parts(): set<object> {
      {this, buffer, buffer.slots, loss, loss.data1, loss.data2, loss.next, loss.prior}
      + {window, window.ackSeqNo, window.ack, window.timeStamp}
    }

    /** The start of a connection. */
    constructor (queue: Q.UnitQueue, peerIsn: int32, bufSize: nat, flightFlagSize: nat, ghost start: int,
        ghost stream: bool)
      requires 0 < bufSize <= flightFlagSize <= TH && bufSize < TH && peerIsn == Wire(start) && queue.Counted()
      ensures Represents(R.InitRcv(start, bufSize, stream)) && buffer.queue == queue && buffer.mine == {}
      ensures fresh(Parts() - {this}) && buffer.size == bufSize && loss.size == flightFlagSize && window.size == 1024
    {
      hide Wire, CurrWire, B.RcvBuffer.Represents, L.RcvLossList.Valid, L.RcvLossList.Contents, W.AckWindow.Valid;
      StartWire(start);
      buffer := new B.RcvBuffer(queue, bufSize, start, stream);
      loss := new L.RcvLossList(flightFlagSize);
      window := new W.AckWindow(1024);
      lastAck, lastAckAck, curr, ackSeqNo := peerIsn, peerIsn, peerIsn - 1, 0;
      assert 0 == Wire(0) by {
        WireZero();
      }
    }

    /** The ACK number: the first missing packet, or the one after the largest received. */
    method AckNo(ghost r: R.Rcv) returns (ack: int32)
      requires Represents(r) && R.RcvOrdered(r)
      ensures ack == Wire(R.NextExpected(r))
    {
      hide Wire, CurrWire, B.RcvBuffer.Represents, L.RcvLossList.Valid, L.RcvLossList.Contents, W.AckWindow.Valid,
        Recorded, R.Partitioned;
      CurrAgrees(r.isn, r.curr);
      var lost := loss.GetLossLength();
      if lost == 0 {
        ack := IncSeq(curr);
      } else {
        ack := loss.GetFirstLostSeq();
      }
    }

    /** A lite ACK, unless the sender is known to have acted on that number. */
    method SendLiteAck(ghost r: R.Rcv) returns (ack: Option<int32>)
      requires Represents(r) && R.RcvOrdered(r)
      ensures ack == ToLite(R.SendLiteAck(r))
    {
      hide Wire, CurrWire, B.RcvBuffer.Represents, L.RcvLossList.Valid, L.RcvLossList.Contents, W.AckWindow.Valid,
        Recorded, Listed, R.NextExpected, R.RcvOrdered;
      var no := AckNo(r);
      if no == lastAckAck {
        return None;
      }
      return Some(no);
    }

    /** A full ACK: advance what the application may read, then report it unless the sender is
        known to have acted on it. */
    method SendFullAck(late: bool, now: int, ghost r: R.Rcv) returns (pkt: Option<WireAck>)
      requires Represents(r) && R.RcvInv(r)
      modifies this`lastAck, this`ackSeqNo, buffer`lastAckPos, buffer`maxPos
      modifies window, window.ackSeqNo, window.ack, window.timeStamp
      ensures Represents(R.SendFullAck(r, late).0)
      ensures pkt == ToWire(R.SendFullAck(r, late).1)
      ensures Timed(old(window.records), window.records, pkt, now)
    {
      hide Wire, CurrWire, B.RcvBuffer.Represents, L.RcvLossList.Valid, L.RcvLossList.Contents, W.AckWindow.Valid,
        Recorded, Listed, R.NextExpected, R.RcvOrdered, SeqCmp, SeqOff;
      NextWithin(r);
      ghost var a := R.NextExpected(r);
      CmpAgrees(a, r.lastAck);
      OffAgrees(r.lastAck, a);
      var ack := AckNo(r);
      if ack == lastAckAck {
        return None;
      }
      if SeqCmp(ack, lastAck) > 0 {
        var acksize := SeqOff(lastAck, ack);
        lastAck := ack;
        buffer.AckData(acksize as int, r);
      } else if ack == lastAck {
        if !late {
          return None;
        }
      } else {
        return None;
      }
      pkt := Report(now, r.(lastAck := a));
    }

    /** Number, send and record an ACK that the sender is not known to have acted on. */
    method Report(now: int, ghost r: R.Rcv) returns (pkt: Option<WireAck>)
      requires Represents(r) && R.Logged(r)
      modifies this`ackSeqNo, window, window.ackSeqNo, window.ack, window.timeStamp
      ensures
        if !Newer(r.lastAck, r.lastAckAck) then Represents(r) && pkt == None
        else
          var no := |r.ackLog| + 1;
          && Represents(r.(ackLog := r.ackLog + [r.lastAck], history := R.Stored(r.history, R.AckRec(no, r.lastAck))))
          && pkt == Some(WireAck(Wire(no), Wire(r.lastAck), R.Advertised(r)))
      ensures Timed(old(window.records), window.records, pkt, now)
    {
      hide Wire, CurrWire, B.RcvBuffer.Represents, L.RcvLossList.Valid, L.RcvLossList.Contents, W.AckWindow.Valid,
        Recorded, Listed, SeqCmp, IncAck;
      IncAgrees(|r.ackLog|);
      if SeqCmp(lastAck, lastAckAck) <= 0 {
        return None;
      }
      ackSeqNo := IncAck(ackSeqNo);
      var avail := buffer.GetAvailBufSize(r);
      // a window of at least 2 keeps the sender from waiting for ever
      if avail < 2 {
        avail := 2;
      }
      Record(now, R.AckRec(|r.ackLog| + 1, r.lastAck), r.history);
      ghost var r' := r.(ackLog := r.ackLog + [r.lastAck],
          history := R.Stored(r.history, R.AckRec(|r.ackLog| + 1, r.lastAck)));
      buffer.SameStand(r, r');
      pkt := Some(WireAck(ackSeqNo, lastAck, avail));
    }

    method Record(now: int, ghost rec: R.AckRec, ghost history: seq<R.AckRec>)
      requires Recorded(history) && |history| <= R.HISTORY_LIMIT && ackSeqNo == Wire(rec.no) && lastAck == Wire(rec.ack)
      modifies window, window.ackSeqNo, window.ack, window.timeStamp
      ensures Recorded(R.Stored(history, rec))
      ensures Timed(old(window.records), window.records, Some(WireAck(ackSeqNo, lastAck, 0)), now)
    {
      hide Wire, CurrWire, B.RcvBuffer.Represents, L.RcvLossList.Valid, L.RcvLossList.Contents, W.AckWindow.Valid;
      window.Store(ackSeqNo, lastAck, now);
    }

    /** A data packet in `unit`: store it, report a gap before it, and keep the loss list. */
    method OnData(unit: Q.Unit, seqno: int32, ghost i: int, ghost r: R.Rcv) returns (report: Option<seq<int32>>)
      requires Represents(r) && R.RcvInv(r) && seqno == Wire(i) && Near(r.lastAck, i)
      requires unit in buffer.queue.all && unit !in buffer.queue.used
      modifies this`curr, loss, loss.data1, loss.data2, loss.next, loss.prior
      modifies buffer.slots, buffer`maxPos, buffer`units, buffer`mine, buffer.queue`count, buffer.queue`used, unit`flag
      ensures Represents(R.OnData(r, i, old(unit.chunk)).0)
      ensures report == ToReport(R.OnData(r, i, old(unit.chunk)).1)
      ensures buffer.mine <= old(buffer.mine) + {unit} && buffer.Others() == old(buffer.Others())
    {
      hide Wire, CurrWire, B.RcvBuffer.Represents, L.RcvLossList.Valid, L.RcvLossList.Contents, W.AckWindow.Valid,
        Recorded, Listed, R.RcvInv, R.OnData, SeqOff, B.RcvBuffer.Others;
      ghost var chunk := unit.chunk;
      OffAgrees(r.lastAck, i);
      DataFacts(r, i, chunk);
      var offset := SeqOff(lastAck, seqno) as int;
      var avail := buffer.GetAvailBufSize(r);
      if offset < 0 || offset >= avail {
        return None;
      }
      var stored := buffer.AddData(unit, offset, r);
      if !stored {
        return None;
      }
      report := NoteGap(seqno, i, r);
      NoteArrival(seqno, i, r);
    }

    /** Loss detection: the numbers between the largest received so far and an arriving packet. */
    method NoteGap(seqno: int32, ghost i: int, ghost r: R.Rcv) returns (report: Option<seq<int32>>)
      requires Numbers(r) && Listed(r.loss, r.bufSize) && InReach(r, i) && seqno == Wire(i)
      modifies loss, loss.data1, loss.data2, loss.next, loss.prior
      ensures
        if i > r.curr + 1 then
          Listed(r.loss + Range(r.curr + 1, i - 1), r.bufSize) && report == Some(EncodeOne(Loss(r.curr + 1, i - 1)))
        else Listed(r.loss, r.bufSize) && report == None
    {
      hide Wire, CurrWire, B.RcvBuffer.Represents, L.RcvLossList.Valid, L.RcvLossList.Contents, W.AckWindow.Valid,
        SeqCmp, IncSeq, DecSeq;
      CurrAgrees(r.isn, r.curr);
      CmpAgrees(i, r.curr + 1);
      DecAgrees(i);
      report := None;
      if SeqCmp(seqno, IncSeq(curr)) > 0 {
        CmpAgrees(r.curr + 1, i - 1);
        loss.Insert(IncSeq(curr), DecSeq(seqno), r.curr + 1, i - 1);
        var first, last := IncSeq(curr), DecSeq(seqno);
        report := Some(if first == last then [last] else [Mark(first), last]);
      }
    }

    /** The largest number received moves on, or a hole is filled. */
    method NoteArrival(seqno: int32, ghost i: int, ghost r: R.Rcv)
      requires Numbers(r) && InReach(r, i) && seqno == Wire(i)
      requires Listed(if i > r.curr + 1 then r.loss + Range(r.curr + 1, i - 1) else r.loss, r.bufSize)
      modifies this`curr, loss, loss.data1, loss.data2, loss.next, loss.prior
      ensures Numbers(r.(curr := if i > r.curr then i else r.curr))
      ensures
        Listed(
          if i > r.curr + 1 then r.loss + Range(r.curr + 1, i - 1) else if i <= r.curr then r.loss - {i} else r.loss,
          r.bufSize)
    {
      hide Wire, CurrWire, B.RcvBuffer.Represents, L.RcvLossList.Valid, L.RcvLossList.Contents, W.AckWindow.Valid,
        SeqCmp;
      CmpCurr(r.isn, r.curr, i);
      CurrAgrees(r.isn, i);
      if SeqCmp(seqno, curr) > 0 {
        curr := seqno;
      } else {
        var found := loss.Remove(seqno, i);
      }
    }

    /** An ACK2: the sender has acted on that ACK and all before it. */
    method OnAck2(no: int32, now: int, ghost n: int, ghost r: R.Rcv) returns (rttPositive: bool)
      requires Represents(r) && R.RcvInv(r) && no == Wire(n) && Near(n, |r.ackLog|)
      modifies this`lastAckAck, window, window.ackSeqNo
      ensures Represents(R.OnAck2(r, n, rttPositive))
      ensures Measured(old(window.records), no, now, rttPositive)
      ensures Raised(old(window.records), no, old(lastAckAck), lastAckAck, rttPositive)
    {
      hide Wire, CurrWire, B.RcvBuffer.Represents, L.RcvLossList.Valid, L.RcvLossList.Contents, W.AckWindow.Valid,
        Listed, Recorded, SeqCmp, R.RcvOrdered;
      var rtt, ack := MatchAck2(no, now, n, r.history, |r.ackLog|);
      rttPositive := rtt > 0;
      buffer.SameStand(r, R.OnAck2(r, n, rttPositive));
      if rtt <= 0 {
        return;
      }
      if SeqCmp(ack, lastAckAck) > 0 {
        lastAckAck := ack;
      }
    }

    /** Look an ACK2 up in the window. */
    method MatchAck2(no: int32, now: int, ghost n: int, ghost history: seq<R.AckRec>, ghost last: int)
      returns (rtt: int, ack: int32)
      requires Recorded(history) && no == Wire(n) && Near(n, last) && |history| <= R.HISTORY_LIMIT
      requires forall k :: 0 <= k < |history| ==> history[k].no == last - |history| + 1 + k
      modifies window, window.ackSeqNo
      ensures
        var k := R.Lookup(history, n);
        if k < |history| then Recorded(history[k + 1..]) && ack == Wire(history[k].ack)
        else Recorded(history) && rtt == -1
      ensures
        var k := W.Find(old(window.records), no);
        if k < |old(window.records)| then
          rtt == now - old(window.records)[k].time && ack == old(window.records)[k].ack && 0 <= ack
        else rtt == -1
    {
      hide Wire, CurrWire, B.RcvBuffer.Represents, L.RcvLossList.Valid, L.RcvLossList.Contents, W.AckWindow.Valid;
      SameFind(window.records, history, n, last);
      rtt, ack := window.Acknowledge(no, now);
    }

    /** The application reads from the byte stream. */
    method Read(len: nat, ghost r: R.Rcv) returns (data: Payload)
      requires Represents(r) && R.RcvInv(r)
      modifies buffer, buffer.slots, buffer.queue`count, buffer.queue`used, buffer.mine
      ensures Represents(R.Read(r, len))
      ensures data == R.ReadBytes(r.buf, r.readPos, r.lastAck, r.notch, len).bytes
      ensures R.Read(r, len).out == r.out + data
      ensures buffer.mine <= old(buffer.mine) && buffer.Others() == old(buffer.Others())
    {
      hide Wire, CurrWire, B.RcvBuffer.Represents, L.RcvLossList.Valid, L.RcvLossList.Contents, W.AckWindow.Valid,
        Recorded, Listed, R.RcvOrdered, R.ReadBytes, B.RcvBuffer.Others;
      data := buffer.ReadBuffer(len, r);
    }

    /** The application asks for a message. */
    method ReadMsg(len: nat, ghost r: R.Rcv, ghost chunks: seq<Chunk>) returns (data: Payload)
      requires Represents(r) && R.RcvInv(r) && M.MsgInv(r, chunks) && r.lastAck <= r.isn + |chunks| && r.notch == 0
      modifies buffer, buffer.slots, buffer.queue`count, buffer.queue`used, buffer.mine
      ensures Represents(M.ReadMsg(r, len)) && data == M.Handed(r, len)
      ensures buffer.mine <= old(buffer.mine) && buffer.Others() == old(buffer.Others())
    {
      hide Wire, CurrWire, B.RcvBuffer.Represents, L.RcvLossList.Valid, L.RcvLossList.Contents, W.AckWindow.Valid,
        Recorded, Listed, R.RcvOrdered, M.MsgInv, M.ReadMsg, M.Handed, B.RcvBuffer.Others;
      M.ReadMsgFrame(r, len);
      data := buffer.ReadMsg(len, r, chunks);
    }
  }

  /** Packet `i` is at most a buffer away from everything the loss list holds. */
  ghost predicate InReach(r: R.Rcv, i: int) {
    && r.isn <= i && r.isn - 1 <= r.curr && r.bufSize < TH
    && r.curr - i < r.bufSize && i - r.curr <= r.bufSize
    && forall x <- r.loss :: x < r.curr && i - x < r.bufSize && x - i < r.bufSize
  }

  lemma DataFacts(r: R.Rcv, i: int, chunk: Chunk)
    requires R.RcvInv(r) && r.bufSize < TH
    ensures R.Accepts(r, i) ==> InReach(r, i)
    ensures
      var out := R.OnData(r, i, chunk);
      if !R.Accepts(r, i) then out == (r, None)
      else
        var gap := i > r.curr + 1;
        && out.0 == r.(buf := out.0.buf, loss := out.0.loss, curr := if i > r.curr then i else r.curr)
        && out.0.loss
           == (if gap then r.loss + Range(r.curr + 1, i - 1) else if i <= r.curr then r.loss - {i} else r.loss)
        && out.1 == if gap then Some(R.Nak(r.curr + 1, i - 1)) else None
  {
  }

  /** The window finds an ACK by its wire number as the model finds it by its index. */
  lemma {:induction false} SameFind(records: seq<W.Record>, history: seq<R.AckRec>, n: int, last: int)
    requires Matches(records, history) && Near(n, last) && |history| <= R.HISTORY_LIMIT
    requires forall k :: 0 <= k < |history| ==> history[k].no == last - |history| + 1 + k
    ensures W.Find(records, Wire(n)) == R.Lookup(history, n)
  {
    hide Wire;
    if history != [] {
      if history[0].no != n && Wire(history[0].no) == Wire(n) {
        WireInjective(history[0].no, n);
      }
      SameFind(records[1..], history[1..], n, last);
    }
  }

  lemma NextWithin(r: R.Rcv)
    requires R.RcvOrdered(r)
    ensures r.lastAck <= R.NextExpected(r) <= r.curr + 1 && R.NextExpected(r) < r.lastAck + r.bufSize
  {
    R.NextExpectedBounds(r);
  }

  lemma WireZero()
    ensures Wire(0) == 0
  {
  }
}
