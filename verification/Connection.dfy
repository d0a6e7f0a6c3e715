/** One direction of a UDT connection: a sender, a receiver and a network that may lose,
    duplicate and reorder every packet.  Packets sent are never taken out of the network sets:
    losing one is never delivering it, duplicating it is delivering it again. */
module Connection {
  import opened Stream
  import opened SeqNo
  import S = SndModel
  import R = RcvModel
  import M = MsgModel

  datatype Config = Config(isn: int, bufSize: nat, window: nat, mss: nat, stream: bool)

  datatype Net = Net(data: set<S.DataPkt>, acks: set<R.Ack>, naks: set<R.Nak>, ack2s: set<int>)

  datatype Conn = Conn(cfg: Config, snd: S.Snd, rcv: R.Rcv, net: Net)

  predicate WellFormed(cfg: Config) {
    0 < cfg.mss && 0 < cfg.bufSize
  }

  /** Largest flow window a sender can ever be given: the initial one, an advertised free
      buffer, or the floor of two.  The handshake makes the initial window the receiver's
      buffer size, so for buffers of two packets or more this is the initial window. */
  function Span(cfg: Config): nat {
    S.Max(cfg.window, S.Max(cfg.bufSize - 1, 2))
  }

  function Init(cfg: Config): Conn {
    Conn(cfg, S.InitSnd(cfg.isn, cfg.window), R.InitRcv(cfg.isn, cfg.bufSize, cfg.stream), Net({}, {}, {}, {}))
  }

  datatype Event =
    | Accept(bytes: Payload, order: bool)
    | PopLost
    | Retransmit
    | SendNew(cwnd: nat)
    | DeliverData(pkt: S.DataPkt)
    | LiteAckTimer
    | FullAckTimer(late: bool)
    | DeliverAck(ack: R.Ack, reply: bool)
    | CommitAck
    | DeliverAck2(no: int, rttPositive: bool)
    | DeliverNak(nak: R.Nak)
    | ExpTimer
    | Read(len: nat)
    | ReadMsg(room: nat)

  function AddOpt<T>(s: set<T>, x: Option<T>): set<T> {
    if x.Some? then s + {x.value} else s
  }

  function Transmit(c: Conn, out: (S.Snd, Option<S.DataPkt>)): Conn {
    c.(snd := out.0, net := c.net.(data := AddOpt(c.net.data, out.1)))
  }

  /** One atomic section on either side.  The receive thread of the sender waits for AckLock
      while an acknowledgement is pending, so it takes no other packet or timer meanwhile.
      A packet that was never sent cannot be delivered. */
  ghost function Step(c: Conn, e: Event): (c': Conn)
    requires 0 < c.cfg.mss
    ensures c'.cfg == c.cfg
  {
    var busy := c.snd.pendingAck.Some?;
    match e
    case Accept(bytes, order) => if bytes == [] then c else c.(snd := S.AddBuffer(c.snd, bytes, c.cfg.mss, order))
    case PopLost => c.(snd := S.PopLost(c.snd))
    case Retransmit => Transmit(c, S.Retransmit(c.snd))
    case SendNew(cwnd) => Transmit(c, S.SendNew(c.snd, cwnd))
    case DeliverData(pkt) =>
      if pkt !in c.net.data then c
      else
        var out := R.OnData(c.rcv, pkt.index, pkt.chunk);
        c.(rcv := out.0, net := c.net.(naks := AddOpt(c.net.naks, out.1)))
    case LiteAckTimer => c.(net := c.net.(acks := AddOpt(c.net.acks, R.SendLiteAck(c.rcv))))
    case FullAckTimer(late) =>
      var out := R.SendFullAck(c.rcv, late);
      c.(rcv := out.0, net := c.net.(acks := AddOpt(c.net.acks, out.1)))
    case DeliverAck(ack, reply) =>
      if ack !in c.net.acks || busy then c
      else if ack.LiteAck? then c.(snd := S.OnLiteAck(c.snd, ack.ack))
      else c.(snd := S.OnFullAck(c.snd, ack.ack, ack.avail),
              net := c.net.(ack2s := if reply then c.net.ack2s + {ack.no} else c.net.ack2s))
    case CommitAck => c.(snd := S.CommitAck(c.snd))
    case DeliverAck2(no, rttPositive) =>
      if no !in c.net.ack2s then c else c.(rcv := R.OnAck2(c.rcv, no, rttPositive))
    case DeliverNak(nak) =>
      if nak !in c.net.naks || busy then c else c.(snd := S.OnNak(c.snd, nak.lo, nak.hi))
    case ExpTimer => if busy then c else c.(snd := S.OnExp(c.snd))
    case Read(len) => if c.cfg.stream then c.(rcv := R.Read(c.rcv, len)) else c
    case ReadMsg(room) => if c.cfg.stream then c else c.(rcv := M.ReadMsg(c.rcv, room))
  }

  /** A run: any sequence of events, each at any time. */
  ghost function Run(c: Conn, es: seq<Event>): (c': Conn)
    requires 0 < c.cfg.mss
    ensures c'.cfg == c.cfg
    decreases |es|
  {
    if es == [] then c else Run(Step(c, es[0]), es[1..])
  }

  lemma {:induction false} RunConcat(c: Conn, a: seq<Event>, b: seq<Event>)
    requires 0 < c.cfg.mss
    ensures Run(c, a + b) == Run(Run(c, a), b)
    decreases |a|
  {
    hide Step;
    if a == [] {
      assert a + b == b;
    } else {
      RunConcat(Step(c, a[0]), a[1..], b);
      assert (a + b)[1..] == a[1..] + b;
    }
  }

  lemma RunSnoc(c: Conn, es: seq<Event>, e: Event)
    requires 0 < c.cfg.mss
    ensures Run(c, es + [e]) == Step(Run(c, es), e)
  {
    hide Step;
    RunConcat(c, es, [e]);
    assert [e][1..] == [];
  }

  // ----- The invariant of both machines together -----

  /** What the two ends know of each other. */
  ghost predicate Linked(s: S.Snd, r: R.Rcv) {
    && s.isn == r.isn
    && !s.broken
    && r.curr <= s.curr
    && S.AckedTo(s) <= r.lastAck
    && s.lastAck <= R.NextExpected(r)
    && r.lastAckAck <= S.AckedTo(s)
    && R.Faithful(r, s.chunks)
  }

  /** Every data packet on the network carries the payload accepted for its index. */
  ghost predicate DataInv(s: S.Snd, data: set<S.DataPkt>) {
    forall p <- data :: s.isn <= p.index <= s.curr && p.index < s.isn + |s.chunks|
        && p.chunk == s.chunks[p.index - s.isn]
  }

  ghost predicate AckInv(r: R.Rcv, w: int, acks: set<R.Ack>) {
    forall a <- acks ::
      match a
      case LiteAck(n) => r.isn <= n <= R.NextExpected(r)
      case FullAck(no, n, avail) =>
        1 <= no <= |r.ackLog| && n == r.ackLog[no - 1] && 2 <= avail <= w
  }

  ghost predicate NakInv(r: R.Rcv, naks: set<R.Nak>) {
    forall n <- naks :: r.isn <= n.lo <= n.hi < r.curr
  }

  /** The sender answers an ACK with ACK2 only as it acts on it. */
  ghost predicate Ack2Inv(s: S.Snd, r: R.Rcv, ack2s: set<int>) {
    forall no <- ack2s :: 1 <= no <= |r.ackLog| && r.ackLog[no - 1] <= S.AckedTo(s)
  }

  ghost predicate NetInv(c: Conn) {
    && DataInv(c.snd, c.net.data)
    && AckInv(c.rcv, Span(c.cfg), c.net.acks)
    && NakInv(c.rcv, c.net.naks)
    && Ack2Inv(c.snd, c.rcv, c.net.ack2s)
  }

  ghost predicate Inv(c: Conn) {
    && WellFormed(c.cfg)
    && c.rcv.bufSize == c.cfg.bufSize && c.rcv.stream == c.cfg.stream
    && S.SndInv(c.snd, Span(c.cfg))
    && R.RcvInv(c.rcv)
    && Linked(c.snd, c.rcv)
    && NetInv(c)
  }

  /** What is known about message boundaries. */
  ghost predicate Told(c: Conn) {
    S.Tiled(c.snd) && (!c.cfg.stream ==> c.rcv.notch == 0 && M.MsgInv(c.rcv, c.snd.chunks))
  }

  /** The whole invariant. */
  ghost predicate Good(c: Conn) {
    Inv(c) && Told(c)
  }

  lemma InitInv(cfg: Config)
    requires WellFormed(cfg)
    ensures Inv(Init(cfg))
  {
    S.InitKeeps(cfg.isn, cfg.window, Span(cfg));
    R.InitKeeps(cfg.isn, cfg.bufSize, cfg.stream);
  }

  /** What is on the network stays explained as the sender moves forward. */
  lemma NetSurvivesSender(c: Conn, s': S.Snd)
    requires NetInv(c) && c.snd.isn == s'.isn && c.snd.curr <= s'.curr
    requires c.snd.chunks <= s'.chunks && S.AckedTo(c.snd) <= S.AckedTo(s')
    ensures NetInv(c.(snd := s'))
  {
  }

  /** ... and as the receiver moves forward. */
  lemma NetSurvivesReceiver(c: Conn, r': R.Rcv)
    requires NetInv(c) && c.rcv.isn == r'.isn && c.rcv.curr <= r'.curr
    requires R.NextExpected(c.rcv) <= R.NextExpected(r') && c.rcv.ackLog <= r'.ackLog
    ensures NetInv(c.(rcv := r'))
  {
  }

  lemma AcceptKeeps(c: Conn, bytes: Payload, order: bool)
    requires Inv(c)
    ensures Inv(Step(c, Accept(bytes, order)))
  {
    S.AddBufferKeeps(c.snd, bytes, c.cfg.mss, order, Span(c.cfg));
    R.FaithfulGrows(c.rcv, c.snd.chunks, Chunks(bytes, c.cfg.mss, c.snd.nextMsgNo, order, true));
    NetSurvivesSender(c, S.AddBuffer(c.snd, bytes, c.cfg.mss, order));
  }

  lemma PopLostKeeps(c: Conn)
    requires Inv(c)
    ensures Inv(Step(c, PopLost))
  {
    S.PopLostKeeps(c.snd, Span(c.cfg));
    NetSurvivesSender(c, S.PopLost(c.snd));
  }

  lemma RetransmitKeeps(c: Conn)
    requires Inv(c)
    ensures Inv(Step(c, Retransmit))
  {
    S.RetransmitKeeps(c.snd, Span(c.cfg));
    var out := S.Retransmit(c.snd);
    NetSurvivesSender(c, out.0);
    assert DataInv(out.0, AddOpt(c.net.data, out.1));
  }

  lemma SendNewKeeps(c: Conn, cwnd: nat)
    requires Inv(c)
    ensures Inv(Step(c, SendNew(cwnd)))
  {
    S.SendNewKeeps(c.snd, cwnd, Span(c.cfg));
    var out := S.SendNew(c.snd, cwnd);
    NetSurvivesSender(c, out.0);
    assert DataInv(out.0, AddOpt(c.net.data, out.1));
  }

  lemma DeliverDataKeeps(c: Conn, pkt: S.DataPkt)
    requires Inv(c)
    ensures Inv(Step(c, DeliverData(pkt)))
  {
    hide Told, S.Windowed, R.Logged, R.Partitioned, R.Partial, R.NextExpected;
    if pkt in c.net.data {
      var out := R.OnData(c.rcv, pkt.index, pkt.chunk);
      R.DataKeeps(c.rcv, pkt.index, pkt.chunk);
      R.DataAdvances(c.rcv, pkt.index, pkt.chunk);
      R.DataFaithful(c.rcv, c.snd.chunks, pkt.index);
      NetSurvivesReceiver(c, out.0);
      assert NakInv(out.0, AddOpt(c.net.naks, out.1));
    }
  }

  lemma LiteAckTimerKeeps(c: Conn)
    requires Inv(c)
    ensures Inv(Step(c, LiteAckTimer))
  {
    R.NextExpectedBounds(c.rcv);
  }

  lemma FullAckTimerKeeps(c: Conn, late: bool)
    requires Inv(c)
    ensures Inv(Step(c, FullAckTimer(late)))
  {
    hide Told, S.SndInv, Wire, Newer, R.Partial;
    var out := R.SendFullAck(c.rcv, late);
    R.NextExpectedBounds(c.rcv);
    R.FullAckKeeps(c.rcv, late);
    NetSurvivesReceiver(c, out.0);
    assert AckInv(out.0, Span(c.cfg), AddOpt(c.net.acks, out.1));
  }

  lemma DeliverAckKeeps(c: Conn, ack: R.Ack, reply: bool)
    requires Inv(c)
    ensures Inv(Step(c, DeliverAck(ack, reply)))
  {
    if ack in c.net.acks && c.snd.pendingAck.None? {
      R.NextExpectedBounds(c.rcv);
      if ack.LiteAck? {
        S.LiteAckKeeps(c.snd, ack.ack, Span(c.cfg));
        NetSurvivesSender(c, S.OnLiteAck(c.snd, ack.ack));
      } else {
        assert c.rcv.ackLog[ack.no - 1] in c.rcv.ackLog;
        S.FullAckKeeps(c.snd, ack.ack, ack.avail, Span(c.cfg));
        NetSurvivesSender(c, S.OnFullAck(c.snd, ack.ack, ack.avail));
      }
    }
  }

  lemma CommitAckKeeps(c: Conn)
    requires Inv(c)
    ensures Inv(Step(c, CommitAck))
  {
    S.CommitAckKeeps(c.snd, Span(c.cfg));
    NetSurvivesSender(c, S.CommitAck(c.snd));
  }

  lemma DeliverAck2Keeps(c: Conn, no: int, rttPositive: bool)
    requires Inv(c)
    ensures Inv(Step(c, DeliverAck2(no, rttPositive)))
  {
    hide Told, S.SndInv, R.RcvOrdered, R.Partial, R.Recorded;
    R.Ack2Keeps(c.rcv, no, rttPositive);
    var k := R.Lookup(c.rcv.history, no);
    if k < |c.rcv.history| {
      R.RecordedAt(c.rcv.history, c.rcv.ackLog, k);
    }
    NetSurvivesReceiver(c, R.OnAck2(c.rcv, no, rttPositive));
  }

  lemma DeliverNakKeeps(c: Conn, nak: R.Nak)
    requires Inv(c)
    ensures Inv(Step(c, DeliverNak(nak)))
  {
    if nak in c.net.naks && c.snd.pendingAck.None? {
      S.NakKeeps(c.snd, nak.lo, nak.hi, Span(c.cfg));
      NetSurvivesSender(c, S.OnNak(c.snd, nak.lo, nak.hi));
    }
  }

  lemma ExpTimerKeeps(c: Conn)
    requires Inv(c)
    ensures Inv(Step(c, ExpTimer))
  {
    if c.snd.pendingAck.None? {
      S.ExpKeeps(c.snd, Span(c.cfg));
      NetSurvivesSender(c, S.OnExp(c.snd));
    }
  }

  lemma ReadKeeps(c: Conn, len: nat)
    requires Inv(c)
    ensures Inv(Step(c, Read(len)))
  {
    R.ReadKeeps(c.rcv, len);
    R.ReadFaithful(c.rcv, c.snd.chunks, len);
    NetSurvivesReceiver(c, R.Read(c.rcv, len));
  }

  lemma ReadMsgKeeps(c: Conn, room: nat)
    requires Good(c)
    ensures Inv(Step(c, ReadMsg(room)))
  {
    hide M.MsgInv, S.Tiled, M.ReadMsg;
    if !c.cfg.stream {
      M.ReadMsgKeeps(c.rcv, c.snd.chunks, room);
      M.ReadMsgFrame(c.rcv, room);
      NetSurvivesReceiver(c, M.ReadMsg(c.rcv, room));
      M.MsgHolds(M.ReadMsg(c.rcv, room), c.snd.chunks);
    }
  }

  lemma StepKeeps(c: Conn, e: Event)
    requires Good(c)
    ensures Inv(Step(c, e))
  {
    hide Told;
    match e
    case Accept(bytes, order) => AcceptKeeps(c, bytes, order);
    case PopLost => PopLostKeeps(c);
    case Retransmit => RetransmitKeeps(c);
    case SendNew(cwnd) => SendNewKeeps(c, cwnd);
    case DeliverData(pkt) => DeliverDataKeeps(c, pkt);
    case LiteAckTimer => LiteAckTimerKeeps(c);
    case FullAckTimer(late) => FullAckTimerKeeps(c, late);
    case DeliverAck(ack, reply) => DeliverAckKeeps(c, ack, reply);
    case CommitAck => CommitAckKeeps(c);
    case DeliverAck2(no, rttPositive) => DeliverAck2Keeps(c, no, rttPositive);
    case DeliverNak(nak) => DeliverNakKeeps(c, nak);
    case ExpTimer => ExpTimerKeeps(c);
    case Read(len) => ReadKeeps(c, len);
    case ReadMsg(room) => ReadMsgKeeps(c, room);
  }

  lemma AcceptTold(c: Conn, bytes: Payload, order: bool)
    requires Good(c)
    ensures Told(Step(c, Accept(bytes, order)))
  {
    hide M.MsgInv, S.Tiled, S.SndInv, R.RcvInv, Linked, NetInv;
    if bytes != [] {
      S.AddBufferTiles(c.snd, bytes, c.cfg.mss, order);
      ChunksAreFramed(bytes, c.cfg.mss, c.snd.nextMsgNo, order);
      if !c.cfg.stream {
        M.GrowKeepsMsg(c.rcv, c.snd.chunks, Chunks(bytes, c.cfg.mss, c.snd.nextMsgNo, order, true));
      }
    }
  }

  lemma DeliverDataTold(c: Conn, pkt: S.DataPkt)
    requires Good(c)
    ensures Told(Step(c, DeliverData(pkt)))
  {
    hide M.MsgInv, S.Tiled;
    if pkt in c.net.data && !c.cfg.stream {
      M.DataKeepsMsg(c.rcv, c.snd.chunks, pkt.index);
    }
  }

  lemma ReadMsgTold(c: Conn, room: nat)
    requires Good(c)
    ensures Told(Step(c, ReadMsg(room)))
  {
    hide M.MsgInv, S.Tiled, M.ReadMsg;
    if !c.cfg.stream {
      M.ReadMsgKeeps(c.rcv, c.snd.chunks, room);
      M.ReadMsgFrame(c.rcv, room);
    }
  }

  lemma StepTold(c: Conn, e: Event)
    requires Good(c)
    ensures Told(Step(c, e))
  {
    hide M.MsgInv, S.TiledOver, S.SndInv, R.RcvInv, Linked, NetInv;
    match e
    case Accept(bytes, order) => AcceptTold(c, bytes, order);
    case DeliverData(pkt) => DeliverDataTold(c, pkt);
    case FullAckTimer(late) =>
      if !c.cfg.stream {
        M.FullAckKeepsMsg(c.rcv, c.snd.chunks, late);
      }
    case DeliverAck2(no, rttPositive) =>
      if !c.cfg.stream {
        M.Ack2KeepsMsg(c.rcv, c.snd.chunks, no, rttPositive);
      }
    case ReadMsg(room) => ReadMsgTold(c, room);
    case _ =>
  }

  lemma StepGood(c: Conn, e: Event)
    requires Good(c)
    ensures Good(Step(c, e))
  {
    hide Inv, Told, Step;
    StepKeeps(c, e);
    StepTold(c, e);
  }

  lemma {:induction false} RunKeeps(c: Conn, es: seq<Event>)
    requires Good(c) && 0 < c.cfg.mss
    ensures Good(Run(c, es))
    decreases |es|
  {
    hide Inv, Told, Step;
    if es != [] {
      StepGood(c, es[0]);
      RunKeeps(Step(c, es[0]), es[1..]);
    }
  }

  lemma InitGood(cfg: Config)
    requires WellFormed(cfg)
    ensures Good(Init(cfg))
  {
    InitInv(cfg);
  }

  /** Every reachable state satisfies the invariant. */
  lemma Reachable(cfg: Config, es: seq<Event>)
    requires WellFormed(cfg)
    ensures Good(Run(Init(cfg), es))
  {
    InitGood(cfg);
    RunKeeps(Init(cfg), es);
  }
}
