/** Runs put together from events: what one state can reach, and rounds in which packets are sent,
    arrive and are acknowledged. */
module Rounds {
  import opened Arith
  import opened Stream
  import opened IntSets
  import opened SeqNo
  import opened Connection
  import opened MsgField
  import S = SndModel
  import R = RcvModel
  import M = MsgModel

  ghost predicate Reaches(c: Conn, c': Conn)
    requires 0 < c.cfg.mss
  {
    exists es :: Run(c, es) == c'
  }

  lemma Next(c: Conn, c1: Conn, e: Event) returns (c2: Conn)
    requires 0 < c.cfg.mss && Reaches(c, c1) && Good(c1)
    ensures c2 == Step(c1, e) && Reaches(c, c2) && Good(c2) && 0 < c2.cfg.mss
  {
    hide Inv, Told, Step;
    c2 := Step(c1, e);
    var es :| Run(c, es) == c1;
    RunSnoc(c, es, e);
    assert Run(c, es + [e]) == c2;
    StepGood(c1, e);
  }

  lemma Stay(c: Conn)
    requires 0 < c.cfg.mss
    ensures Reaches(c, c)
  {
    assert Run(c, []) == c;
  }

  lemma Witness(c: Conn, c': Conn) returns (es: seq<Event>)
    requires 0 < c.cfg.mss && Reaches(c, c')
    ensures Run(c, es) == c'
  {
    es :| Run(c, es) == c';
  }

  lemma Trans(a: Conn, b: Conn, c: Conn)
    requires 0 < a.cfg.mss && Reaches(a, b) && 0 < b.cfg.mss && Reaches(b, c)
    ensures Reaches(a, c)
  {
    var x :| Run(a, x) == b;
    var y :| Run(b, y) == c;
    RunConcat(a, x, y);
  }

  // ----- Rounds -----

  /** `sent` packets have been sent and have arrived; of these `acked` are acknowledged and
      released, the receiver knows this of the first `known`, and `read` are read. */
  ghost predicate At(c: Conn, sent: int, acked: int, known: int, read: int) {
    && Good(c)
    && c.snd.popped.None? && c.snd.pendingAck.None? && c.snd.loss == {} && c.rcv.loss == {}
    && c.snd.curr + 1 == c.rcv.curr + 1 == c.snd.isn + sent && sent <= |c.snd.chunks|
    && c.snd.lastAck == c.snd.lastDataAck == c.rcv.lastAck == c.snd.isn + acked
    && c.rcv.lastAckAck == c.snd.isn + known && c.rcv.readPos == c.snd.isn + read
    && sent - acked <= c.snd.flow
  }

  /** Every message so far is one packet. */
  ghost predicate Singles(c: Conn) {
    forall chunk <- c.snd.chunks :: Last(chunk)
  }

  lemma Begin(cfg: Config)
    requires WellFormed(cfg)
    ensures At(Init(cfg), 0, 0, 0, 0) && Singles(Init(cfg)) && Init(cfg).snd.flow == cfg.window
  {
    InitGood(cfg);
  }

  /** The application hands over one more byte. */
  lemma AcceptOne(c0: Conn, c: Conn) returns (c': Conn)
    requires 0 < c0.cfg.mss && Reaches(c0, c) && Good(c)
    ensures Reaches(c0, c') && Good(c') && c'.cfg == c.cfg && c'.rcv == c.rcv && c'.net == c.net
    ensures c'.snd == c.snd.(chunks := c'.snd.chunks, calls := c'.snd.calls, nextMsgNo := c'.snd.nextMsgNo)
    ensures |c'.snd.chunks| == |c.snd.chunks| + 1 && (Singles(c) ==> Singles(c'))
  {
    hide Told, Reaches, IsFirst, IsLast;
    c' := Next(c0, c, Accept([0], false));
    ChunksCounted([0], c.cfg.mss, c.snd.nextMsgNo, false, true);
    OnePacket(c.cfg.mss);
    ChunksFramed([0], c.cfg.mss, c.snd.nextMsgNo, false, true, 0);
  }

  /** The application hands over more bytes, one at a time. */
  lemma {:induction false} AcceptSingles(c0: Conn, c: Conn, n: nat) returns (c': Conn)
    requires 0 < c0.cfg.mss && Reaches(c0, c) && Good(c) && Singles(c)
    ensures Reaches(c0, c') && Good(c') && c'.cfg == c.cfg && c'.rcv == c.rcv && c'.net == c.net
    ensures c'.snd == c.snd.(chunks := c'.snd.chunks, calls := c'.snd.calls, nextMsgNo := c'.snd.nextMsgNo)
    ensures |c'.snd.chunks| == |c.snd.chunks| + n && Singles(c')
    decreases n
  {
    hide Good, Reaches, Singles;
    if n == 0 {
      c' := c;
    } else {
      c' := AcceptOne(c0, c);
      c' := AcceptSingles(c0, c', n - 1);
    }
  }

  lemma OnePacket(mss: nat)
    requires 0 < mss
    ensures PacketCount(1, mss) == 1
  {
    if mss > 1 {
      DivModUnique(1, mss, 0, 1);
    }
  }

  /** The next accepted packet goes out. */
  lemma SendNext(c0: Conn, c: Conn, cwnd: nat) returns (c': Conn, p: S.DataPkt)
    requires 0 < c0.cfg.mss && Reaches(c0, c) && Good(c) && c.snd.popped.None?
    requires c.snd.curr + 1 < c.snd.isn + |c.snd.chunks|
        && c.snd.curr + 2 - c.snd.lastAck <= S.EffectiveWindow(c.snd, cwnd)
    ensures Reaches(c0, c') && Good(c') && c'.cfg == c.cfg && c'.rcv == c.rcv
    ensures c'.snd == c.snd.(curr := c.snd.curr + 1)
    ensures c'.net == c.net.(data := c'.net.data) && c.net.data <= c'.net.data
    ensures p in c'.net.data && p.index == c.snd.curr + 1
  {
    hide Told, Reaches;
    c' := Next(c0, c, SendNew(cwnd));
    var i := c.snd.curr + 1;
    p := S.DataPkt(i, c.snd.chunks[i - c.snd.isn]);
  }

  /** A packet in sequence is stored. */
  lemma Arrives(c0: Conn, c: Conn, p: S.DataPkt) returns (c': Conn)
    requires 0 < c0.cfg.mss && Reaches(c0, c) && Good(c) && p in c.net.data && p.index == c.rcv.curr + 1
    requires p.index - c.rcv.lastAck < R.Avail(c.rcv)
    ensures Reaches(c0, c') && Good(c') && c'.cfg == c.cfg && c'.snd == c.snd && c'.net == c.net
    ensures c'.rcv == c.rcv.(buf := c'.rcv.buf, curr := p.index)
  {
    hide Told, Reaches;
    c' := Next(c0, c, DeliverData(p));
  }

  /** The next accepted packet is sent and delivered, if there are a window and room. */
  lemma PassOne(c0: Conn, c: Conn, sent: int, acked: int, known: int, read: int) returns (c': Conn)
    requires 0 < c0.cfg.mss && Reaches(c0, c) && At(c, sent, acked, known, read) && sent < |c.snd.chunks|
    requires sent - acked < c.snd.flow && sent - read < c.cfg.bufSize - 1
    ensures Reaches(c0, c') && c'.cfg == c.cfg && At(c', sent + 1, acked, known, read)
    ensures c'.snd == c.snd.(curr := c.snd.curr + 1) && c'.net.acks == c.net.acks
    ensures c'.rcv == c.rcv.(buf := c'.rcv.buf, curr := c.rcv.curr + 1)
  {
    hide Told, Reaches;
    var c1, p := SendNext(c0, c, c.snd.flow);
    c' := Arrives(c0, c1, p);
  }

  /** More accepted packets are sent and delivered. */
  lemma {:induction false} PassMany(c0: Conn, c: Conn, sent: int, upTo: int, acked: int, known: int, read: int)
    returns (c': Conn)
    requires 0 < c0.cfg.mss && Reaches(c0, c) && At(c, sent, acked, known, read) && sent <= upTo <= |c.snd.chunks|
    requires upTo - acked <= c.snd.flow && upTo - read <= c.cfg.bufSize - 1
    ensures Reaches(c0, c') && c'.cfg == c.cfg && At(c', upTo, acked, known, read)
    ensures c'.snd == c.snd.(curr := c'.snd.curr) && c'.rcv == c.rcv.(buf := c'.rcv.buf, curr := c'.rcv.curr)
    decreases upTo - sent
  {
    hide At, Reaches;
    if sent == upTo {
      c' := c;
    } else {
      c' := PassOne(c0, c, sent, acked, known, read);
      c' := PassMany(c0, c', sent + 1, upTo, acked, known, read);
    }
  }

  /** One more packet is accepted, sent and delivered. */
  lemma SendOne(c0: Conn, c: Conn, sent: int, acked: int, known: int, read: int) returns (c': Conn)
    requires 0 < c0.cfg.mss && Reaches(c0, c) && At(c, sent, acked, known, read)
    requires sent - acked < c.snd.flow && sent - read < c.cfg.bufSize - 1
    ensures Reaches(c0, c') && c'.cfg == c.cfg && c'.snd.isn == c.snd.isn
    ensures At(c', sent + 1, acked, known, read) && c'.snd.flow == c.snd.flow && c'.net.acks == c.net.acks
    ensures Singles(c) ==> Singles(c')
  {
    hide Told, Inv, Reaches, IsLast;
    c' := AcceptOne(c0, c);
    c' := PassOne(c0, c', sent, acked, known, read);
  }

  /** A full ACK of everything that has arrived is on its way. */
  lemma Acknowledged(c0: Conn, c: Conn) returns (c': Conn, a: R.Ack)
    requires 0 < c0.cfg.mss && Reaches(c0, c) && Good(c) && c.rcv.loss == {}
    requires c.rcv.lastAckAck < c.rcv.curr + 1 < c.rcv.lastAckAck + TH
    ensures Reaches(c0, c') && Good(c') && c'.cfg == c.cfg && c'.snd == c.snd && c'.net == c.net.(acks := c'.net.acks)
    ensures a in c'.net.acks && a.FullAck? && a.ack == c.rcv.curr + 1 && a.avail == R.Advertised(c'.rcv)
    ensures c'.rcv == c.rcv.(lastAck := a.ack, ackLog := c'.rcv.ackLog, history := c'.rcv.history)
    ensures R.Recorded(c'.rcv.history, c'.rcv.ackLog) && R.Lookup(c'.rcv.history, a.no) < |c'.rcv.history|
    ensures 1 <= a.no <= |c'.rcv.ackLog| && c'.rcv.ackLog[a.no - 1] == a.ack
  {
    hide Told, Reaches, Wire, Newer, R.Stored, R.Lookup, R.Recorded;
    c' := Next(c0, c, FullAckTimer(true));
    var ack, no := c.rcv.curr + 1, |c.rcv.ackLog| + 1;
    assert R.NextExpected(c.rcv) == ack;
    NewerNear(ack, c.rcv.lastAckAck);
    CmpAgrees(ack, c.rcv.lastAckAck);
    R.StoredIsFound(c.rcv.history, R.AckRec(no, ack));
    a := R.FullAck(no, ack, R.Advertised(c.rcv.(lastAck := ack)));
  }

  /** The sender takes the full ACK in; it waits for AckLock. */
  lemma Waiting(c0: Conn, c: Conn, a: R.Ack, reply: bool) returns (c': Conn)
    requires 0 < c0.cfg.mss && Reaches(c0, c) && Good(c) && a in c.net.acks && a.FullAck?
    requires c.snd.pendingAck.None? && c.snd.lastAck <= a.ack <= c.snd.curr + 1
    ensures Reaches(c0, c') && Good(c') && c'.cfg == c.cfg && c'.rcv == c.rcv
    ensures c'.snd == c.snd.(flow := a.avail, lastAck := a.ack, pendingAck := Some(a.ack))
    ensures c'.net == c.net.(ack2s := c'.net.ack2s) && (reply ==> a.no in c'.net.ack2s)
  {
    hide Told, Reaches;
    c' := Next(c0, c, DeliverAck(a, reply));
  }

  /** Its ACK2 arrives. */
  lemma Confirmed(c0: Conn, c: Conn, a: R.Ack) returns (c': Conn)
    requires 0 < c0.cfg.mss && Reaches(c0, c) && Good(c) && a.FullAck? && a.no in c.net.ack2s
    requires R.Recorded(c.rcv.history, c.rcv.ackLog) && R.Lookup(c.rcv.history, a.no) < |c.rcv.history|
    requires 1 <= a.no <= |c.rcv.ackLog| && c.rcv.ackLog[a.no - 1] == a.ack
    requires c.rcv.lastAckAck < a.ack < c.rcv.lastAckAck + TH
    ensures Reaches(c0, c') && Good(c') && c'.cfg == c.cfg && c'.snd == c.snd && c'.net == c.net
    ensures c'.rcv == c.rcv.(history := c'.rcv.history, lastAckAck := a.ack)
  {
    hide Told, Reaches, R.OnAck2, R.Lookup, R.Recorded;
    R.Ack2Confirms(c.rcv, a.no);
    c' := Next(c0, c, DeliverAck2(a.no, true));
  }

  /** The AckLock section runs. */
  lemma Released(c0: Conn, c: Conn) returns (c': Conn)
    requires 0 < c0.cfg.mss && Reaches(c0, c) && Good(c) && c.snd.pendingAck.Some?
    requires c.snd.lastDataAck <= c.snd.pendingAck.value && c.snd.loss == {}
    ensures Reaches(c0, c') && Good(c') && c'.cfg == c.cfg && c'.rcv == c.rcv && c'.net == c.net
    ensures c'.snd == c.snd.(lastDataAck := c.snd.pendingAck.value, pendingAck := None)
  {
    hide Told, Reaches;
    c' := Next(c0, c, CommitAck);
  }

  /** Everything that has arrived is acknowledged and released; `reply` says whether an ACK2 follows. */
  lemma AckAll(c0: Conn, c: Conn, sent: int, acked: int, known: int, read: int, reply: bool) returns (c': Conn)
    requires 0 < c0.cfg.mss && Reaches(c0, c) && At(c, sent, acked, known, read)
    requires acked <= sent && known < sent < known + TH
    ensures Reaches(c0, c') && c'.cfg == c.cfg && c'.snd.isn == c.snd.isn
    ensures At(c', sent, sent, if reply then sent else known, read) && c'.snd.flow == R.Advertised(c'.rcv)
    ensures c'.snd.chunks == c.snd.chunks && c'.rcv.taken == c.rcv.taken
  {
    hide Told, Reaches, Inv, R.Lookup, R.Recorded;
    var c1, a := Acknowledged(c0, c);
    c' := Waiting(c0, c1, a, reply);
    if reply {
      c' := Confirmed(c0, c', a);
    }
    c' := Released(c0, c');
  }

  /** Read everything acknowledged. */
  lemma ReadAll(c0: Conn, c: Conn) returns (c': Conn)
    requires 0 < c0.cfg.mss && Reaches(c0, c) && Good(c) && c.cfg.stream
    ensures Reaches(c0, c') && Good(c') && c'.cfg == c.cfg && c'.snd == c.snd && c'.net == c.net
    ensures c'.rcv.readPos == c'.rcv.lastAck
    ensures c'.rcv == c.rcv.(readPos := c'.rcv.readPos, notch := c'.rcv.notch, buf := c'.rcv.buf, out := c'.rcv.out)
  {
    hide Told, R.Partial, NetInv, S.SndInv, Flatten;
    var len := |Flatten(c.snd.chunks)| + 1;
    c' := Next(c0, c, Read(len));
    R.ReadKeeps(c.rcv, len);
    R.ReadBytesSpan(c.rcv.buf, c.rcv.readPos, c.rcv.lastAck, c.rcv.notch, len);
    R.FaithfulIsPrefix(c'.rcv, c'.snd.chunks);
  }

  /** The messages `ms` and more, read with this much room. */
  ghost predicate Uncut(ms: seq<R.Message>, ms': seq<R.Message>, room: nat) {
    ms <= ms' && forall k :: |ms| <= k < |ms'| ==> ms'[k].room == room
  }

  /** Messages are read until no complete one is left among the acknowledged packets. */
  lemma {:induction false} ReadMessages(c0: Conn, c: Conn, room: nat) returns (c': Conn)
    requires 0 < c0.cfg.mss && Reaches(c0, c) && Good(c) && !c.cfg.stream
    ensures Reaches(c0, c') && Good(c') && c'.cfg == c.cfg && c'.snd == c.snd && c'.net == c.net
    ensures M.NoEnd(c'.rcv) && Uncut(c.rcv.messages, c'.rcv.messages, room)
    ensures
      var r := c'.rcv;
      r == c.rcv.(readPos := r.readPos, buf := r.buf, taken := r.taken, messages := r.messages)
    decreases |M.Unread(c.rcv)|
  {
    hide Good, M.ReadMsg, M.NoEnd, Reaches;
    c' := Next(c0, c, ReadMsg(room));
    ReadOne(c, room);
    if |c'.rcv.messages| > |c.rcv.messages| {
      c' := ReadMessages(c0, c', room);
    }
  }

  lemma ReadOne(c: Conn, room: nat)
    requires Good(c) && !c.cfg.stream
    ensures
      var r := M.ReadMsg(c.rcv, room);
      && r == c.rcv.(readPos := r.readPos, buf := r.buf, taken := r.taken, messages := r.messages)
      && Uncut(c.rcv.messages, r.messages, room)
      && if |r.messages| > |c.rcv.messages| then |M.Unread(r)| < |M.Unread(c.rcv)| else M.NoEnd(r)
  {
    hide NetInv, S.Windowed, M.ReadMsg, M.NoEnd, M.MsgInv;
    M.ReadMsgProgress(c.rcv, c.snd.chunks, room);
    Smaller(M.Unread(M.ReadMsg(c.rcv, room)), M.Unread(c.rcv));
  }

  /** Read everything acknowledged, in either mode. */
  lemma ReadUp(c0: Conn, c: Conn) returns (c': Conn)
    requires 0 < c0.cfg.mss && Reaches(c0, c) && Good(c) && Singles(c)
    ensures Reaches(c0, c') && Good(c') && c'.cfg == c.cfg && c'.snd == c.snd && c'.net == c.net
    ensures c'.rcv.readPos == c'.rcv.lastAck
    ensures
      var r := c'.rcv;
      r == c.rcv.(readPos := r.readPos, notch := r.notch, buf := r.buf, out := r.out, taken := r.taken,
          messages := r.messages)
  {
    hide Good, M.NoEnd, Reaches, IsLast;
    if c.cfg.stream {
      c' := ReadAll(c0, c);
    } else {
      c' := ReadMessages(c0, c, 0);
      NoneLeft(c');
    }
  }

  lemma NoneLeft(c: Conn)
    requires Good(c) && Singles(c) && M.NoEnd(c.rcv)
    ensures c.rcv.readPos == c.rcv.lastAck
  {
    hide Told, NetInv, S.SndInv, R.Partial, M.NoEnd, IsLast, R.Partitioned;
    M.NoEndAt(c.rcv, c.rcv.readPos);
  }

  /** A packet is sent, arrives, is acknowledged and read; `reply` says whether an ACK2 follows. */
  lemma Round(c0: Conn, c: Conn, n: int, known: int, reply: bool) returns (c': Conn)
    requires 0 < c0.cfg.mss && Reaches(c0, c) && At(c, n, n, known, n) && Singles(c)
    requires 2 <= c.cfg.bufSize && 1 <= c.snd.flow && known <= n && n + 1 < known + TH
    ensures Reaches(c0, c') && At(c', n + 1, n + 1, if reply then n + 1 else known, n + 1) && Singles(c')
    ensures c'.cfg == c.cfg && c'.snd.isn == c.snd.isn && 1 <= c'.snd.flow
  {
    hide Inv, Told, Reaches, IsLast;
    c' := SendOne(c0, c, n, n, known, n);
    c' := AckAll(c0, c', n + 1, n, known, n, reply);
    c' := ReadUp(c0, c');
  }

  /** Any number of packets go through, each answered with an ACK2. */
  lemma {:induction false} Answered(cfg: Config, n: nat) returns (c: Conn)
    requires WellFormed(cfg) && 2 <= cfg.bufSize && 1 <= cfg.window
    ensures Reaches(Init(cfg), c) && At(c, n, n, n, n) && Singles(c) && c.cfg == cfg && c.snd.isn == cfg.isn
        && 1 <= c.snd.flow
  {
    hide At, Reaches, Singles;
    if n == 0 {
      c := Init(cfg);
      Stay(c);
      Begin(cfg);
    } else {
      c := Answered(cfg, n - 1);
      c := Round(Init(cfg), c, n - 1, n - 1, true);
    }
  }

  /** After `k` packets that were answered, any number below the threshold can go through without a
      single ACK2. */
  lemma {:induction false} Untold(cfg: Config, k: nat, n: nat) returns (c: Conn)
    requires WellFormed(cfg) && 2 <= cfg.bufSize && 1 <= cfg.window && n < TH
    ensures Reaches(Init(cfg), c) && At(c, k + n, k + n, k, k + n) && Singles(c)
    ensures c.cfg == cfg && c.snd.isn == cfg.isn && 1 <= c.snd.flow
    decreases n
  {
    hide At, Reaches, Singles;
    if n == 0 {
      c := Answered(cfg, k);
    } else {
      c := Untold(cfg, k, n - 1);
      c := Round(Init(cfg), c, k + n - 1, k, false);
    }
  }

  /** The application hands over a message of `n` packets. */
  lemma AcceptMany(c0: Conn, c: Conn, n: nat) returns (c': Conn)
    requires 0 < c0.cfg.mss && Reaches(c0, c) && Good(c) && 0 < n
    ensures Reaches(c0, c') && Good(c') && c'.cfg == c.cfg && c'.rcv == c.rcv && c'.net == c.net
    ensures c'.snd == c.snd.(chunks := c'.snd.chunks, calls := c'.snd.calls, nextMsgNo := c'.snd.nextMsgNo)
    ensures |c'.snd.chunks| == |c.snd.chunks| + n
    ensures
      var first := |c.snd.chunks|;
      forall k | first <= k < first + n ::
        (First(c'.snd.chunks[k]) <==> k == first) && (Last(c'.snd.chunks[k]) <==> k == first + n - 1)
  {
    hide Told, Reaches, Chunks, IsFirst, IsLast;
    var len := n * c.cfg.mss;
    c' := Next(c0, c, Accept(Zeros(len), false));
    ChunksCounted(Zeros(len), c.cfg.mss, c.snd.nextMsgNo, false, true);
    DivModUnique(len, c.cfg.mss, n, 0);
    var first := |c.snd.chunks|;
    forall k | first <= k < first + n
      ensures (First(c'.snd.chunks[k]) <==> k == first) && (Last(c'.snd.chunks[k]) <==> k == first + n - 1)
    {
      ChunksFramed(Zeros(len), c.cfg.mss, c.snd.nextMsgNo, false, true, k - first);
    }
  }

  lemma BufferSize(c: Conn)
    requires Good(c)
    ensures c.rcv.bufSize == c.cfg.bufSize
  {
  }

  // ----- Sizes with which nothing gets through -----

  /** With a one-packet buffer, or no initial window, no packet is ever stored or acknowledged. */
  ghost predicate Mute(c: Conn) {
    && c.rcv == R.InitRcv(c.cfg.isn, c.cfg.bufSize, c.cfg.stream)
    && c.net.acks == {} && c.net.naks == {} && c.net.ack2s == {}
    && c.snd.pendingAck.None? && c.snd.isn == c.snd.lastAck == c.snd.lastDataAck == c.cfg.isn
    && c.snd.flow == c.cfg.window && c.snd.curr + 1 <= c.snd.isn + c.cfg.window
    && (c.cfg.bufSize == 1 || c.cfg.window == 0)
    && (c.cfg.window == 0 ==> c.net.data == {} && c.snd.loss == {} && c.snd.popped.None? && c.snd.curr + 1 == c.snd.isn)
  }

  lemma {:induction false} StaysMute(c: Conn, es: seq<Event>)
    requires 0 < c.cfg.mss && Mute(c)
    ensures Mute(Run(c, es))
    decreases |es|
  {
    hide Step, Mute;
    if es != [] {
      StepStaysMute(c, es[0]);
      StaysMute(Step(c, es[0]), es[1..]);
    }
  }

  lemma StepStaysMute(c: Conn, e: Event)
    requires 0 < c.cfg.mss && Mute(c)
    ensures Mute(Step(c, e))
  {
    hide Wire;
    match e
    case Read(len) => assert R.Read(c.rcv, len).buf == map[];
    case _ =>
  }
}
