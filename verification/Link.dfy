/** Both ends of a connection on wire numbers, arrays and linked blocks.  Whatever they do is a step
    of the protocol model in Connection: every operation below finds its preconditions in the
    invariant of the model, except that a packet taken from the network must be recent. */
module Link {
  import opened SeqNo
  import opened IntSets
  import opened Stream
  import opened LossCoding
  import opened MsgField
  import opened Connection
  import S = SndModel
  import R = RcvModel
  import M = MsgModel
  import Q = UnitQueue
  import B = RcvBuffer
  import Snd = Sender
  import Rcv = Receiver
  import N = LossNodes
  import L = RcvLossList

  /** The sizes the two ends are set up with: the flow window is what the peer's buffer allows,
      and a loss list of twice the window must hold the widest window ever advertised. */
  predicate Sized(cfg: Config, flightFlagSize: nat) {
    && WellFormed(cfg) && 0 < cfg.window && 2 * cfg.window <= TH
    && Span(cfg) <= 2 * cfg.window && Span(cfg) < TH
    && cfg.bufSize <= flightFlagSize <= TH && cfg.bufSize < TH
  }

  /** The handshake sets the window to the smaller of the peer's buffer and flight flag size.  The
      sizes then fit exactly if the buffer is not the larger one. */
  lemma NegotiatedSizesFitIff(cfg: Config, flightFlagSize: nat)
    requires WellFormed(cfg) && 2 * cfg.bufSize <= TH && 0 < flightFlagSize <= TH
    requires cfg.window == if cfg.bufSize < flightFlagSize then cfg.bufSize else flightFlagSize
    ensures Sized(cfg, flightFlagSize) <==> cfg.bufSize <= flightFlagSize
  {
  }

  class Link {
    const sender: Snd.Sender
    const receiver: Rcv.Receiver
    /** packData's number between getLostSeq and its AckLock section. */
    var popped: int32
    /** processCtrl's ACK number while it waits for AckLock. */
    var pending: int32

    /** The state of the model. */
    ghost var c: Conn

    ghost predicate Separate() {
      && sender.loss.data1 != receiver.loss.data1 && sender.loss.data1 != receiver.loss.data2
      && sender.loss.data2 != receiver.loss.data1 && sender.loss.data2 != receiver.loss.data2
      && sender.loss.data1 != receiver.window.ackSeqNo && sender.loss.data1 != receiver.window.ack
      && sender.loss.data2 != receiver.window.ackSeqNo && sender.loss.data2 != receiver.window.ack
      && sender.loss.next != receiver.loss.next && sender.loss.next != receiver.loss.prior
      && sender.loss.next != receiver.window.timeStamp
    }

    ghost predicate Sending()
      reads this, sender, sender.buffer, sender.buffer.blocks
      reads sender.loss, sender.loss.data1, sender.loss.data2, sender.loss.next
    {
      && sender.Represents(c.snd, Span(c.cfg)) && sender.buffer.mss == c.cfg.mss
      && (c.snd.popped.Some? ==> popped == Wire(c.snd.popped.value))
      && (c.snd.pendingAck.Some? ==>
            pending == Wire(c.snd.pendingAck.value) && Near(c.snd.lastAck, c.snd.pendingAck.value))
    }

    ghost predicate Receiving()
      reads this, receiver
      reads receiver.loss, receiver.loss.data1, receiver.loss.data2, receiver.loss.next, receiver.loss.prior
      reads receiver.window, receiver.window.ackSeqNo, receiver.window.ack, receiver.window.timeStamp
      reads receiver.buffer, receiver.buffer.slots, receiver.buffer.queue, receiver.buffer.queue.all
      reads receiver.buffer.mine
    {
      receiver.Represents(c.rcv)
    }

    ghost predicate Valid()
      reads this, sender, sender.buffer, sender.buffer.blocks
      reads sender.loss, sender.loss.data1, sender.loss.data2, sender.loss.next
      reads receiver
      reads receiver.loss, receiver.loss.data1, receiver.loss.data2, receiver.loss.next, receiver.loss.prior
      reads receiver.window, receiver.window.ackSeqNo, receiver.window.ack, receiver.window.timeStamp
      reads receiver.buffer, receiver.buffer.slots, receiver.buffer.queue, receiver.buffer.queue.all
      reads receiver.buffer.mine
    {
      Separate() && Good(c) && Sending() && Receiving()
    }

    constructor (queue: Q.UnitQueue, isn: int32, bufSize: nat, window: nat, mss: nat, flightFlagSize: nat,
        ghost cfg: Config)
      requires queue.Counted() && isn == Wire(cfg.isn) && bufSize == cfg.bufSize && window == cfg.window
          && mss == cfg.mss
      requires Sized(cfg, flightFlagSize)
      ensures Valid() && c == Init(cfg) && receiver.buffer.queue == queue && receiver.buffer.mine == {}
      ensures fresh(sender.Parts() + receiver.Parts())
    {
      hide Wire, Good, Snd.Sender.Represents, Rcv.Receiver.Represents, R.InitRcv;
      InitGood(cfg);
      sender := new Snd.Sender(isn, window, mss, cfg.isn, Span(cfg));
      receiver := new Rcv.Receiver(queue, isn, bufSize, flightFlagSize, cfg.isn, cfg.stream);
      popped, pending := -1, -1;
      c := Init(cfg);
    }

    /** The application hands over data. */
    method Send(data: Payload, order: bool)
      requires Valid()
      modifies this`c, sender.buffer, sender.buffer.blocks
      ensures Valid() && c == Step(old(c), Accept(data, order))
      ensures fresh(sender.Parts() - old(sender.Parts()))
    {
      hide Wire, Snd.Sender.Represents, Rcv.Receiver.Represents, Inv, Told, Step, Snd.Sender.Parts;
      ghost var e := Accept(data, order);
      StepGood(c, e);
      SenderSide(c, e);
      sender.Send(data, order, c.snd, Span(c.cfg));
      c := Step(c, e);
    }

    /** packData looks for a lost packet. */
    method GetLost() returns (seqno: int32)
      requires Valid() && c.snd.popped.None?
      modifies this`c, this`popped, sender.loss, sender.loss.data1, sender.loss.data2, sender.loss.next
      ensures Valid() && c == Step(old(c), PopLost)
      ensures seqno == if old(c).snd.loss == {} then -1 else Wire(Min(old(c).snd.loss))
    {
      hide Wire, Snd.Sender.Represents, Rcv.Receiver.Represents, Inv, Told, Step;
      StepGood(c, PopLost);
      SenderSide(c, PopLost);
      popped := sender.GetLost(c.snd, Span(c.cfg));
      seqno := popped;
      c := Step(c, PopLost);
    }

    /** packData retransmits the packet it took off the loss list. */
    method PackLost() returns (pkt: Option<Snd.WirePkt>)
      requires Valid() && c.snd.popped.Some? && Near(c.snd.lastDataAck, c.snd.popped.value)
      modifies this`c
      ensures Valid() && c == Step(old(c), Retransmit)
      ensures pkt == Snd.ToWire(S.Retransmit(old(c).snd).1)
      ensures pkt.Some? ==> pkt.value.seqno == popped && Carried(c.net, old(c).snd.popped.value, pkt.value.chunk)
    {
      hide Wire, Snd.Sender.Represents, Rcv.Receiver.Represents, Inv, Told, Step;
      StepGood(c, Retransmit);
      SenderSide(c, Retransmit);
      LostOut(c);
      pkt := sender.PackLost(popped, c.snd, Span(c.cfg));
      c := Step(c, Retransmit);
    }

    /** packData sends a new packet. */
    method PackNew(cwnd: nat) returns (pkt: Option<Snd.WirePkt>)
      requires Valid() && c.snd.popped.None?
      modifies this`c, sender`curr, sender.buffer`currBlock, sender.buffer`sent
      ensures Valid() && c == Step(old(c), SendNew(cwnd))
      ensures pkt == Snd.ToWire(S.SendNew(old(c).snd, cwnd).1)
      ensures pkt.Some? <==> old(sender.OpenFor(cwnd)) && old(sender.OpenFor(sender.flow as int))
                             && old(sender.buffer.sent) < sender.buffer.count
      ensures pkt.Some? ==> pkt.value.seqno == sender.curr && Carried(c.net, c.snd.curr, pkt.value.chunk)
    {
      hide Wire, Snd.Sender.Represents, Rcv.Receiver.Represents, Inv, Told, Step;
      ghost var e := SendNew(cwnd);
      StepGood(c, e);
      SenderSide(c, e);
      NewOut(c, cwnd);
      pkt := sender.PackNew(cwnd, c.snd, Span(c.cfg));
      c := Step(c, e);
    }

    /** A lite ACK arrives. */
    method TakeLiteAck(ack: int32, ghost a: R.Ack)
      requires Valid() && a in c.net.acks && a.LiteAck? && ack == Wire(a.ack) && c.snd.pendingAck.None?
      requires Near(c.snd.lastAck, a.ack)
      modifies this`c, sender`flow, sender`lastAck
      ensures Valid() && c == Step(old(c), DeliverAck(a, false))
    {
      hide Wire, Snd.Sender.Represents, Rcv.Receiver.Represents, Inv, Told, Step;
      ghost var e := DeliverAck(a, false);
      StepGood(c, e);
      AckSide(c, a, false);
      sender.OnLiteAck(ack, a.ack, c.snd, Span(c.cfg));
      c := Step(c, e);
    }

    /** A full ACK arrives; it is never one for a packet that was not sent. */
    method TakeFullAck(ack: int32, window: int32, ghost a: R.Ack, ghost reply: bool) returns (ok: bool)
      requires Valid() && a in c.net.acks && a.FullAck? && ack == Wire(a.ack) && window as int == a.avail
          && c.snd.pendingAck.None?
      requires Near(c.snd.lastAck, a.ack) && Near(c.snd.curr + 1, a.ack)
      modifies this`c, this`pending, sender`flow, sender`lastAck, sender`broken
      ensures Valid() && c == Step(old(c), DeliverAck(a, reply)) && ok
    {
      hide Wire, Snd.Sender.Represents, Rcv.Receiver.Represents, Inv, Told, Step, S.OnFullAck, S.Ordered, Near,
        Separate, Span, Good;
      ghost var e, s := DeliverAck(a, reply), c.snd;
      StepGood(c, e);
      FullAckSide(c, a, reply);
      pending, c := ack, Step(c, e);
      ok := sender.OnFullAck(ack, window, a.ack, s, Span(c.cfg));
    }

    /** The full ACK gets AckLock. */
    method Release()
      requires Valid() && c.snd.pendingAck.Some?
      modifies this`c, sender`lastDataAck, sender.loss, sender.loss.data1, sender.loss.data2, sender.loss.next
      modifies sender.buffer`firstBlock, sender.buffer`count, sender.buffer`ring, sender.buffer`sent
      ensures Valid() && c == Step(old(c), CommitAck)
    {
      hide Wire, Snd.Sender.Represents, Rcv.Receiver.Represents, Inv, Told, Step;
      StepGood(c, CommitAck);
      SenderSide(c, CommitAck);
      sender.CommitAck(pending, c.snd, Span(c.cfg));
      c := Step(c, CommitAck);
    }

    /** A loss report arrives; it never names a packet that was not sent. */
    method TakeNak(losslist: seq<int32>, ghost nak: R.Nak)
      requires Valid() && nak in c.net.naks && losslist == EncodeOne(Loss(nak.lo, nak.hi)) && c.snd.pendingAck.None?
      requires Snd.Recent(c.snd, Loss(nak.lo, nak.hi))
      modifies this`c, sender`broken, sender.loss, sender.loss.data1, sender.loss.data2, sender.loss.next
      ensures Valid() && c == Step(old(c), DeliverNak(nak)) && !sender.broken
    {
      hide Wire, Snd.Sender.Represents, Rcv.Receiver.Represents, Inv, Told, Step;
      ghost var e := DeliverNak(nak);
      StepGood(c, e);
      NakSide(c, nak);
      OneEntry(c.snd, Loss(nak.lo, nak.hi));
      sender.OnNak(losslist, [Loss(nak.lo, nak.hi)], c.snd, Span(c.cfg));
      c := Step(c, e);
      NotBroken();
    }

    /** The EXP timer fires. */
    method Expire()
      requires Valid() && c.snd.pendingAck.None?
      modifies this`c, sender.loss, sender.loss.data1, sender.loss.data2, sender.loss.next
      ensures Valid() && c == Step(old(c), ExpTimer)
    {
      hide Wire, Snd.Sender.Represents, Rcv.Receiver.Represents, Inv, Told, Step;
      StepGood(c, ExpTimer);
      SenderSide(c, ExpTimer);
      sender.OnExp(c.snd, Span(c.cfg));
      c := Step(c, ExpTimer);
    }

    lemma NotBroken()
      requires Valid()
      ensures !sender.broken
    {
    }

    /** The next packet from the network is written into a free unit. */
    method Fill(unit: Q.Unit, chunk: Chunk)
      requires Valid() && unit in receiver.buffer.queue.all && unit !in receiver.buffer.queue.used
      modifies unit`chunk
      ensures Valid() && unit.chunk == chunk
    {
      hide Wire, Snd.Sender.Represents, Good, B.RcvBuffer.Represents;
      hide Rcv.Receiver.Listed, Rcv.Receiver.Recorded, Rcv.Receiver.Numbers;
      receiver.buffer.Fill(unit, chunk, c.rcv);
    }

    /** A data packet arrives in a free unit. */
    method TakeData(unit: Q.Unit, seqno: int32, ghost pkt: S.DataPkt) returns (report: Option<seq<int32>>)
      requires Valid() && pkt in c.net.data && seqno == Wire(pkt.index) && unit.chunk == pkt.chunk
      requires unit in receiver.buffer.queue.all && unit !in receiver.buffer.queue.used
      requires Near(c.rcv.lastAck, pkt.index)
      modifies this`c, receiver`curr, unit`flag
      modifies receiver.loss, receiver.loss.data1, receiver.loss.data2, receiver.loss.next, receiver.loss.prior
      modifies receiver.buffer.slots, receiver.buffer`maxPos, receiver.buffer`units, receiver.buffer`mine
      modifies receiver.buffer.queue`count, receiver.buffer.queue`used
      ensures Valid() && c == Step(old(c), DeliverData(pkt))
      ensures report == Rcv.ToReport(R.OnData(old(c).rcv, pkt.index, pkt.chunk).1)
      ensures report.Some?
              ==> report.value == EncodeOne(Loss(old(c).rcv.curr + 1, pkt.index - 1))
                  && R.Nak(old(c).rcv.curr + 1, pkt.index - 1) in c.net.naks
      ensures receiver.buffer.mine <= old(receiver.buffer.mine) + {unit}
      ensures receiver.buffer.Others() == old(receiver.buffer.Others())
    {
      hide Wire, Snd.Sender.Represents, Rcv.Receiver.Represents, Inv, Told, Step, R.RcvInv, R.OnData;
      ghost var e := DeliverData(pkt);
      StepGood(c, e);
      ReceiverSide(c, e);
      ReportOut(c, pkt);
      report := receiver.OnData(unit, seqno, pkt.index, c.rcv);
      c := Step(c, e);
    }

    /** A lite ACK goes out. */
    method LiteAck() returns (ack: Option<int32>)
      requires Valid()
      modifies this`c
      ensures Valid() && c == Step(old(c), LiteAckTimer) && ack == Rcv.ToLite(R.SendLiteAck(old(c).rcv))
      ensures ack.Some? ==> ack.value == Wire(R.NextExpected(c.rcv)) && R.LiteAck(R.NextExpected(c.rcv)) in c.net.acks
    {
      hide Wire, Snd.Sender.Represents, Rcv.Receiver.Represents, Inv, Told, Step, R.RcvInv, R.SendLiteAck,
        R.NextExpected;
      StepGood(c, LiteAckTimer);
      ReceiverSide(c, LiteAckTimer);
      LiteOut(c);
      ack := receiver.SendLiteAck(c.rcv);
      c := Step(c, LiteAckTimer);
    }

    /** A full ACK goes out. */
    method FullAck(late: bool, now: int) returns (pkt: Option<Rcv.WireAck>)
      requires Valid()
      modifies this`c, receiver`lastAck, receiver`ackSeqNo, receiver.buffer`lastAckPos, receiver.buffer`maxPos
      modifies receiver.window, receiver.window.ackSeqNo, receiver.window.ack, receiver.window.timeStamp
      ensures Valid() && c == Step(old(c), FullAckTimer(late)) && pkt == Rcv.ToWire(R.SendFullAck(old(c).rcv, late).1)
      ensures Rcv.Timed(old(receiver.window.records), receiver.window.records, pkt, now)
      ensures pkt.Some? ==> pkt.value.no == Wire(|c.rcv.ackLog|) && pkt.value.ack == Wire(c.rcv.lastAck)
                            && R.FullAck(|c.rcv.ackLog|, c.rcv.lastAck, pkt.value.avail) in c.net.acks
    {
      hide Wire, Snd.Sender.Represents, Rcv.Receiver.Represents, Inv, Told, Step, R.RcvInv, R.SendFullAck,
        R.NextExpected;
      ghost var e := FullAckTimer(late);
      StepGood(c, e);
      ReceiverSide(c, e);
      FullOut(c, late);
      pkt := receiver.SendFullAck(late, now, c.rcv);
      c := Step(c, e);
    }

    /** An ACK2 arrives. */
    method TakeAck2(no: int32, now: int, ghost n: int) returns (rttPositive: bool)
      requires Valid() && n in c.net.ack2s && no == Wire(n) && Near(n, |c.rcv.ackLog|)
      modifies this`c, receiver`lastAckAck, receiver.window, receiver.window.ackSeqNo
      ensures Valid() && c == Step(old(c), DeliverAck2(n, rttPositive))
      ensures Rcv.Measured(old(receiver.window.records), no, now, rttPositive)
      ensures Rcv.Raised(old(receiver.window.records), no, old(receiver.lastAckAck), receiver.lastAckAck, rttPositive)
    {
      hide Wire, Snd.Sender.Represents, Rcv.Receiver.Represents, Inv, Told, Step, R.RcvInv, R.OnAck2;
      rttPositive := receiver.OnAck2(no, now, n, c.rcv) by {
        ReceiverSide(c, DeliverAck2(n, false));
      }
      ghost var e := DeliverAck2(n, rttPositive);
      StepGood(c, e);
      ReceiverSide(c, e);
      c := Step(c, e);
    }

    /** The application reads from the byte stream. */
    method Read(len: nat) returns (data: Payload)
      requires Valid() && c.cfg.stream
      modifies this`c, receiver.buffer, receiver.buffer.slots, receiver.buffer.queue`count, receiver.buffer.queue`used
      modifies receiver.buffer.mine
      ensures Valid() && c == Step(old(c), Event.Read(len)) && c.rcv.out == old(c).rcv.out + data
      ensures c.rcv.out <= Flatten(c.snd.chunks)
      ensures receiver.buffer.mine <= old(receiver.buffer.mine)
      ensures receiver.buffer.Others() == old(receiver.buffer.Others())
    {
      hide Wire, Snd.Sender.Represents, Rcv.Receiver.Represents, Inv, Told, Step, R.ReadBytes, R.RcvInv;
      ghost var e := Event.Read(len);
      StepGood(c, e);
      ReceiverSide(c, e);
      data := receiver.Read(len, c.rcv);
      c := Step(c, e);
      ReadSoFar(c);
    }

    /** The application asks for a message. */
    method ReadMsg(room: nat) returns (data: Payload)
      requires Valid() && !c.cfg.stream
      modifies this`c, receiver.buffer, receiver.buffer.slots, receiver.buffer.queue`count, receiver.buffer.queue`used
      modifies receiver.buffer.mine
      ensures Valid() && c == Step(old(c), Event.ReadMsg(room)) && data == M.Handed(old(c).rcv, room)
      ensures (c.rcv.messages == old(c).rcv.messages && data == [])
              || Gained(old(c).rcv.messages, c.rcv.messages, data)
      ensures receiver.buffer.mine <= old(receiver.buffer.mine)
      ensures receiver.buffer.Others() == old(receiver.buffer.Others())
    {
      hide Wire, Snd.Sender.Represents, Rcv.Receiver.Represents, Inv, Told, Step, M.ReadMsg, M.Handed, M.MsgInv,
        R.RcvInv;
      ghost var e := Event.ReadMsg(room);
      StepGood(c, e);
      ReceiverSide(c, e);
      MessageSide(c);
      MessageOut(c, room);
      data := receiver.ReadMsg(room, c.rcv, c.snd.chunks);
      c := Step(c, e);
    }
  }

  /** The packet is on the network. */
  predicate Carried(net: Net, index: int, chunk: Chunk) {
    S.DataPkt(index, chunk) in net.data
  }

  /** One more message, with these bytes. */
  predicate Gained(before: seq<R.Message>, after: seq<R.Message>, data: Payload) {
    before < after && |after| == |before| + 1 && after[|before|].bytes == data
  }

  /** What goes out is what the network may deliver. */
  lemma LostOut(c: Conn)
    requires 0 < c.cfg.mss
    ensures
      var p := Snd.ToWire(S.Retransmit(c.snd).1);
      p.Some?
      ==> c.snd.popped.Some? && p.value.seqno == Wire(c.snd.popped.value)
          && Carried(Step(c, Retransmit).net, c.snd.popped.value, p.value.chunk)
  {
  }

  lemma NewOut(c: Conn, cwnd: nat)
    requires 0 < c.cfg.mss
    ensures
      var c', p := Step(c, SendNew(cwnd)), Snd.ToWire(S.SendNew(c.snd, cwnd).1);
      p.Some? ==> p.value.seqno == Wire(c'.snd.curr) && Carried(c'.net, c'.snd.curr, p.value.chunk)
  {
  }

  lemma LiteOut(c: Conn)
    requires 0 < c.cfg.mss
    ensures
      var c', p, n := Step(c, LiteAckTimer), Rcv.ToLite(R.SendLiteAck(c.rcv)), R.NextExpected(c.rcv);
      p.Some? ==> p.value == Wire(n) && R.LiteAck(n) in c'.net.acks && c'.rcv == c.rcv
  {
    hide Wire, R.NextExpected;
  }

  lemma FullOut(c: Conn, late: bool)
    requires 0 < c.cfg.mss
    ensures
      var c', p := Step(c, FullAckTimer(late)), Rcv.ToWire(R.SendFullAck(c.rcv, late).1);
      p.Some?
      ==> p.value.no == Wire(|c'.rcv.ackLog|) && p.value.ack == Wire(c'.rcv.lastAck)
          && R.FullAck(|c'.rcv.ackLog|, c'.rcv.lastAck, p.value.avail) in c'.net.acks
  {
    hide Wire, R.NextExpected;
  }

  lemma ReportOut(c: Conn, pkt: S.DataPkt)
    requires 0 < c.cfg.mss && pkt in c.net.data
    ensures
      var p := Rcv.ToReport(R.OnData(c.rcv, pkt.index, pkt.chunk).1);
      p.Some?
      ==> p.value == EncodeOne(Loss(c.rcv.curr + 1, pkt.index - 1))
          && R.Nak(c.rcv.curr + 1, pkt.index - 1) in Step(c, DeliverData(pkt)).net.naks
  {
    hide EncodeOne;
  }

  lemma MessageOut(c: Conn, room: nat)
    requires 0 < c.cfg.mss && !c.cfg.stream
    ensures
      var c', data := Step(c, Event.ReadMsg(room)), M.Handed(c.rcv, room);
      (c'.rcv.messages == c.rcv.messages && data == []) || Gained(c.rcv.messages, c'.rcv.messages, data)
  {
    hide M.SkipTo, M.Search, M.Gather, M.Take;
  }

  lemma AckSide(c: Conn, a: R.Ack, reply: bool)
    requires Good(c) && a in c.net.acks && c.snd.pendingAck.None?
    ensures
      var c' := Step(c, DeliverAck(a, reply));
      && c'.snd == (if a.LiteAck? then S.OnLiteAck(c.snd, a.ack) else S.OnFullAck(c.snd, a.ack, a.avail))
      && c'.rcv == c.rcv
    ensures 0 < c.cfg.mss && S.Ordered(c.snd) && S.SndInv(c.snd, Span(c.cfg))
        && c.snd.popped == S.OnLiteAck(c.snd, a.ack).popped
    ensures a.ack <= c.snd.curr + 1
  {
    R.NextExpectedBounds(c.rcv);
    if a.FullAck? {
      assert c.rcv.ackLog[a.no - 1] in c.rcv.ackLog;
    }
  }

  /** A full ACK is taken in and waits for AckLock. */
  lemma FullAckSide(c: Conn, a: R.Ack, reply: bool)
    requires Good(c) && a in c.net.acks && c.snd.pendingAck.None? && a.FullAck? && Near(c.snd.lastAck, a.ack)
    ensures
      var c' := Step(c, DeliverAck(a, reply));
      && c'.snd == S.OnFullAck(c.snd, a.ack, a.avail) && c'.rcv == c.rcv
      && c'.snd.popped == c.snd.popped
      && c'.snd.pendingAck == Some(a.ack) && Near(c'.snd.lastAck, a.ack)
    ensures 0 < c.cfg.mss && S.Ordered(c.snd) && a.ack <= c.snd.curr + 1
  {
    hide Inv, Told, S.OnLiteAck;
    AckSide(c, a, reply);
  }

  lemma NakSide(c: Conn, nak: R.Nak)
    requires Good(c) && nak in c.net.naks && c.snd.pendingAck.None?
    ensures 0 < c.cfg.mss && S.SndInv(c.snd, Span(c.cfg)) && !c.snd.broken && c.snd.isn <= c.snd.curr
    ensures
      var c' := Step(c, DeliverNak(nak));
      c'.snd == S.OnNak(c.snd, nak.lo, nak.hi) && c'.rcv == c.rcv
  {
  }

  /** What the receiver writes of its loss list, the sender decodes to the same numbers, as far as
      they are not yet acknowledged. */
  lemma ReportRoundTrip(s: S.Snd, nodes: seq<N.Node>, k: nat)
    requires !s.broken && k <= |nodes| && forall n <- nodes :: n.lo <= n.hi <= s.curr
    ensures k <= |L.LossesOf(nodes)|
    ensures
      var sent := L.LossesOf(nodes)[..k];
      Snd.OnNaks(s, sent) == s.(loss := s.loss + Above(N.Members(nodes[..k]), s.lastAck - 1))
  {
    hide Snd.OnNaks, N.Members, Above;
    L.LossesSize(nodes);
    PrefixLosses(nodes, k);
    L.AllReported(nodes[..k]);
    var sent := L.LossesOf(nodes)[..k];
    forall l | l in sent
      ensures l.lo <= l.hi <= s.curr
    {
      var j :| 0 <= j < |sent| && sent[j] == l;
      L.LossAt(nodes, j);
    }
    Snd.NaksInsertExactly(s, sent);
  }

  lemma {:induction false} PrefixLosses(nodes: seq<N.Node>, k: nat)
    requires k <= |nodes|
    ensures k <= |L.LossesOf(nodes)| && L.LossesOf(nodes)[..k] == L.LossesOf(nodes[..k])
  {
    if k > 0 {
      PrefixLosses(nodes[1..], k - 1);
      assert nodes[..k][1..] == nodes[1..][..k - 1];
    }
  }

  lemma OneEntry(s: S.Snd, l: Loss)
    ensures Snd.OnNaks(s, [l]) == S.OnNak(s, l.lo, l.hi)
    ensures Encode([l]) == EncodeOne(l)
  {
    hide S.OnNak, EncodeOne;
  }

  lemma ReadSoFar(c: Conn)
    requires Good(c)
    ensures c.cfg.stream ==> c.rcv.out <= Flatten(c.snd.chunks)
  {
    hide Told, NetInv, S.SndInv, R.RcvInv;
    if c.cfg.stream {
      R.FaithfulIsPrefix(c.rcv, c.snd.chunks);
    }
  }

  lemma MessageSide(c: Conn)
    requires Good(c) && !c.cfg.stream
    ensures M.MsgInv(c.rcv, c.snd.chunks) && c.rcv.lastAck <= c.rcv.isn + |c.snd.chunks| && c.rcv.notch == 0
  {
    hide M.MsgInv;
  }

  lemma ReceiverSide(c: Conn, e: Event)
    requires Good(c)
    ensures 0 < c.cfg.mss && R.RcvInv(c.rcv) && R.RcvOrdered(c.rcv)
    ensures
      var c' := Step(c, e);
      match e
      case DeliverData(pkt) =>
        pkt in c.net.data ==> c'.rcv == R.OnData(c.rcv, pkt.index, pkt.chunk).0 && c'.snd == c.snd
      case LiteAckTimer => c'.rcv == c.rcv && c'.snd == c.snd
      case FullAckTimer(late) => c'.rcv == R.SendFullAck(c.rcv, late).0 && c'.snd == c.snd
      case DeliverAck2(n, pos) => n in c.net.ack2s ==> c'.rcv == R.OnAck2(c.rcv, n, pos) && c'.snd == c.snd
      case Read(len) => c.cfg.stream ==> c'.rcv == R.Read(c.rcv, len) && c'.snd == c.snd
      case ReadMsg(room) => !c.cfg.stream ==> c'.rcv == M.ReadMsg(c.rcv, room) && c'.snd == c.snd
      case _ => true
  {
    hide R.OnData, R.SendFullAck, R.OnAck2, R.Read, M.ReadMsg;
  }

  lemma SenderSide(c: Conn, e: Event)
    requires Good(c)
    ensures S.SndInv(c.snd, Span(c.cfg)) && 0 < c.cfg.mss && !c.snd.broken
    ensures
      var c' := Step(c, e);
      match e
      case Accept(data, order) =>
        c'.snd == (if data == [] then c.snd else S.AddBuffer(c.snd, data, c.cfg.mss, order)) && c'.rcv == c.rcv
      case PopLost => c'.snd == S.PopLost(c.snd) && c'.rcv == c.rcv
      case Retransmit => c'.snd == S.Retransmit(c.snd).0 && c'.rcv == c.rcv
      case SendNew(cwnd) => c'.snd == S.SendNew(c.snd, cwnd).0 && c'.rcv == c.rcv
      case CommitAck => c'.snd == S.CommitAck(c.snd) && c'.rcv == c.rcv
      case ExpTimer => c.snd.pendingAck.None? ==> c'.snd == S.OnExp(c.snd) && c'.rcv == c.rcv
      case _ => true
  {
  }

  // ----- A client -----

  /** One packet is accepted and sent. */
  lemma SendsOne(cfg: Config, data: Payload)
    requires WellFormed(cfg) && 1 <= cfg.window && 0 < |data| <= cfg.mss
    ensures
      var c1 := Step(Init(cfg), Accept(data, false));
      var c2 := Step(c1, SendNew(1));
      var p := S.DataPkt(cfg.isn, Chunk(data, Compose(1, false, true, true)));
      && Step(c1, PopLost) == c1 && c1.snd.popped.None?
      && S.SendNew(c1.snd, 1).1 == Some(p) && p in c2.net.data && c2.rcv == Init(cfg).rcv
  {
    hide Compose;
    var c1 := Step(Init(cfg), Accept(data, false));
    assert c1.snd.chunks == [Chunk(data, Compose(1, false, true, true))];
  }

  /** One packet is stored, acknowledged and read. */
  lemma ReadsOne(isn: int, size: nat, chunk: Chunk)
    requires 2 <= size && chunk.bytes != []
    ensures
      var r1 := R.OnData(R.InitRcv(isn, size, true), isn, chunk).0;
      var r2 := R.SendFullAck(r1, true).0;
      r2.out == [] && R.Read(r2, |chunk.bytes|).out == chunk.bytes
  {
    hide Wire, Newer;
    var r1 := R.OnData(R.InitRcv(isn, size, true), isn, chunk).0;
    assert R.NextExpected(r1) == isn + 1;
    CmpAgrees(isn + 1, isn);
    var r2 := R.SendFullAck(r1, true).0;
    assert r2.buf == map[isn := chunk] && r2.lastAck == isn + 1;
    assert R.ReadBytes(r2.buf, isn + 1, isn + 1, 0, 0) == R.ReadResult(isn + 1, 0, []);
    assert chunk.bytes[0..] == chunk.bytes;
  }

  /** The only packet of a short stream. */
  function Only(isn: int, data: Payload): S.DataPkt {
    S.DataPkt(isn, Chunk(data, Compose(1, false, true, true)))
  }

  lemma OnePacket(cfg: Config, data: Payload)
    requires WellFormed(cfg) && cfg.stream && 2 <= cfg.bufSize && 1 <= cfg.window && 0 < |data| <= cfg.mss
    ensures
      var p := Only(cfg.isn, data);
      var c1 := Step(Init(cfg), Accept(data, false));
      var c2 := Step(c1, SendNew(1));
      var c3 := Step(c2, DeliverData(p));
      var c4 := Step(c3, FullAckTimer(true));
      && Step(c1, PopLost) == c1 && c1.snd.popped.None? && S.SendNew(c1.snd, 1).1 == Some(p)
      && p in c2.net.data && c2.rcv.lastAck == p.index
      && c4.rcv.out == [] && Step(c4, Event.Read(|data|)).rcv.out == data
  {
    hide Good, Step, Compose, R.OnData, R.SendFullAck, R.Read;
    var p := Only(cfg.isn, data);
    var c1 := Step(Init(cfg), Accept(data, false));
    var c2 := Step(c1, SendNew(1));
    var c3 := Step(c2, DeliverData(p));
    var c4 := Step(c3, FullAckTimer(true));
    InitGood(cfg);
    StepGood(Init(cfg), Accept(data, false));
    StepGood(c1, SendNew(1));
    StepGood(c2, DeliverData(p));
    StepGood(c3, FullAckTimer(true));
    SendsOne(cfg, data);
    ReadsOne(cfg.isn, cfg.bufSize, p.chunk);
    ReceiverSide(c2, DeliverData(p));
    ReceiverSide(c3, FullAckTimer(true));
    ReceiverSide(c4, Event.Read(|data|));
  }

  /** What one application sends, the other one reads. */
  method Transfer(isn: int32, size: nat, mss: nat, data: Payload) returns (out: Payload)
    requires 0 <= isn && 2 <= size && 2 * size <= TH && 0 < |data| <= mss
    ensures out == data
  {
    hide Wire, Step, Good, Link.Valid, S.SendNew, Q.UnitQueue.Shape, Compose;
    var unit := new Q.Unit();
    var queue := new Q.UnitQueue([unit]);
    ghost var cfg := Config(isn as int, size, size, mss, true);
    WireSmall(isn);
    var l := new Link(queue, isn, size, size, mss, size, cfg);
    out := Carry(l, unit, data);
  }

  /** Over a new connection one packet of data is sent, stored, acknowledged and read. */
  method Carry(l: Link, unit: Q.Unit, data: Payload) returns (out: Payload)
    requires l.Valid() && l.c == Init(l.c.cfg) && l.c.cfg.stream && 2 <= l.c.cfg.bufSize && 1 <= l.c.cfg.window
    requires 0 < |data| <= l.c.cfg.mss
    requires unit in l.receiver.buffer.queue.all && unit !in l.receiver.buffer.queue.used
    modifies l, l.sender.Parts(), l.receiver.Parts(), unit, l.receiver.buffer.queue, l.receiver.buffer.mine
    ensures out == data
  {
    hide Wire, Step, Good, Link.Valid, S.SendNew, Compose;
    OnePacket(l.c.cfg, data);
    var pkt := Emit(l, data);
    out := Arrive(l, unit, pkt.value, Only(l.c.cfg.isn, data));
  }

  /** Data is handed over, and a new packet goes out if nothing is lost. */
  method Emit(l: Link, data: Payload) returns (pkt: Option<Snd.WirePkt>)
    requires l.Valid() && l.c.snd.popped.None?
    requires Step(Step(l.c, Accept(data, false)), PopLost).snd.popped.None?
        && Step(l.c, Accept(data, false)).snd.popped.None?
    modifies l, l.sender.Parts()
    ensures l.Valid()
    ensures
      var c1 := Step(Step(old(l.c), Accept(data, false)), PopLost);
      l.c == Step(c1, SendNew(1)) && pkt == Snd.ToWire(S.SendNew(c1.snd, 1).1)
  {
    hide Wire, Step, Good, Link.Valid, S.SendNew;
    l.Send(data, false);
    var lost := l.GetLost();
    pkt := l.PackNew(1);
  }

  /** A packet arrives in a free unit, is acknowledged and read. */
  method Arrive(l: Link, unit: Q.Unit, pkt: Snd.WirePkt, ghost p: S.DataPkt) returns (out: Payload)
    requires l.Valid() && p in l.c.net.data && pkt == Snd.WirePkt(Wire(p.index), p.chunk) && l.c.cfg.stream
    requires unit in l.receiver.buffer.queue.all && unit !in l.receiver.buffer.queue.used
        && Near(l.c.rcv.lastAck, p.index)
    modifies l`c, l.receiver.Parts(), unit, l.receiver.buffer.queue, l.receiver.buffer.mine
    ensures l.Valid()
    ensures
      var c2 := Step(Step(old(l.c), DeliverData(p)), FullAckTimer(true));
      l.c == Step(c2, Event.Read(|p.chunk.bytes|)) && l.c.rcv.out == c2.rcv.out + out
  {
    hide Wire, Step, Good, Link.Valid;
    l.Fill(unit, pkt.chunk);
    var report := l.TakeData(unit, pkt.seqno, p);
    var ack := l.FullAck(true, 0);
    out := l.Read(|pkt.chunk.bytes|);
  }

  lemma WireSmall(isn: int32)
    requires 0 <= isn
    ensures Wire(isn as int) == isn
  {
  }
}
