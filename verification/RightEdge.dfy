/** Flow control: when can a data packet be refused because the receive buffer has no room? */
module RightEdge {
  import opened Arith
  import opened Stream
  import opened SeqNo
  import opened Connection
  import opened Rounds
  import S = SndModel
  import R = RcvModel
  import M = MsgModel

  /** A full ACK whose window field was raised to the minimum of two. */
  ghost predicate Floors(c: Conn, e: Event) {
    && e.FullAckTimer?
    && R.SendFullAck(c.rcv, e.late).1.Some?
    && R.Avail(R.SendFullAck(c.rcv, e.late).0) < 2
  }

  /** No full ACK of the run had its window field raised. */
  ghost predicate Unfloored(c: Conn, es: seq<Event>)
    requires 0 < c.cfg.mss
    decreases |es|
  {
    es == [] || (!Floors(c, es[0]) && Unfloored(Step(c, es[0]), es[1..]))
  }

  /** A packet on the network that processData would refuse for lack of space. */
  ghost predicate Refusable(c: Conn, p: S.DataPkt) {
    p in c.net.data && p.index - c.rcv.lastAck >= R.Avail(c.rcv)
  }

  /** The sender's right edge and everything on the network lie at most `slack` beyond the
      receiver's edge. */
  ghost predicate WithinEdge(c: Conn, slack: nat) {
    && c.snd.lastAck + c.snd.flow <= R.Edge(c.rcv) + slack
    && (forall a <- c.net.acks :: a.FullAck? ==> a.ack + a.avail <= R.Edge(c.rcv) + slack)
    && (forall p <- c.net.data :: p.index < R.Edge(c.rcv) + slack)
    && c.snd.curr < R.Edge(c.rcv) + slack
  }

  /** Lite ACKs leave the sum unchanged, reading only raises the receiver's edge, an unraised full
      ACK advertises exactly the receiver's edge, and a raised one at most two more. */
  lemma StepWithinEdge(c: Conn, slack: nat, e: Event)
    requires Good(c) && WithinEdge(c, slack) && (slack >= 2 || !Floors(c, e))
    ensures WithinEdge(Step(c, e), slack)
  {
    hide Told, WithinEdge, Step, Floors;
    match e
    case Read(len) => ReadWithinEdge(c, slack, len);
    case ReadMsg(room) => ReadMsgWithinEdge(c, slack, room);
    case SendNew(cwnd) => SendWithinEdge(c, slack, cwnd);
    case FullAckTimer(late) => AckWithinEdge(c, slack, late);
    case DeliverAck(ack, reply) => TakeAckWithinEdge(c, slack, ack, reply);
    case _ => OtherWithinEdge(c, slack, e);
  }

  lemma ReadWithinEdge(c: Conn, slack: nat, len: nat)
    requires Good(c) && WithinEdge(c, slack)
    ensures WithinEdge(Step(c, Read(len)), slack)
  {
    hide Told, R.ReadBytes;
    R.ReadKeeps(c.rcv, len);
  }

  lemma TakeAckWithinEdge(c: Conn, slack: nat, ack: R.Ack, reply: bool)
    requires Good(c) && WithinEdge(c, slack)
    ensures WithinEdge(Step(c, DeliverAck(ack, reply)), slack)
  {
    hide Told;
  }

  lemma OtherWithinEdge(c: Conn, slack: nat, e: Event)
    requires Good(c) && WithinEdge(c, slack)
    requires !e.Read? && !e.ReadMsg? && !e.SendNew? && !e.FullAckTimer? && !e.DeliverAck?
    ensures WithinEdge(Step(c, e), slack)
  {
    hide Told, Wire, Newer;
  }

  lemma ReadMsgWithinEdge(c: Conn, slack: nat, room: nat)
    requires Good(c) && WithinEdge(c, slack)
    ensures WithinEdge(Step(c, ReadMsg(room)), slack)
  {
    hide M.MsgInv, S.Tiled, M.ReadMsg;
    if !c.cfg.stream {
      M.ReadMsgFrame(c.rcv, room);
      M.ReadMsgAdvances(c.rcv, c.snd.chunks, room);
    }
  }

  lemma SendWithinEdge(c: Conn, slack: nat, cwnd: nat)
    requires Inv(c) && WithinEdge(c, slack)
    ensures WithinEdge(Step(c, SendNew(cwnd)), slack)
  {
  }

  lemma AckWithinEdge(c: Conn, slack: nat, late: bool)
    requires Inv(c) && WithinEdge(c, slack) && (slack >= 2 || !Floors(c, FullAckTimer(late)))
    ensures WithinEdge(Step(c, FullAckTimer(late)), slack)
  {
    hide Wire, Newer;
    R.NextExpectedBounds(c.rcv);
  }

  lemma {:induction false} RunWithinEdge(c: Conn, slack: nat, es: seq<Event>)
    requires 0 < c.cfg.mss && Good(c) && WithinEdge(c, slack) && (slack >= 2 || Unfloored(c, es))
    ensures WithinEdge(Run(c, es), slack)
    decreases |es|
  {
    hide Good, Step, Floors, WithinEdge;
    if es != [] {
      StepWithinEdge(c, slack, es[0]);
      StepGood(c, es[0]);
      RunWithinEdge(Step(c, es[0]), slack, es[1..]);
    }
  }

  ghost predicate NeverRefuses(cfg: Config)
    requires WellFormed(cfg)
  {
    forall es: seq<Event>, p: S.DataPkt | Unfloored(Init(cfg), es) :: !Refusable(Run(Init(cfg), es), p)
  }

  /** Filling the window: the events that accept `n` packets and send them. */
  function Burst(n: nat, cwnd: nat): seq<Event> {
    if n == 0 then [] else [SendNew(cwnd)] + Burst(n - 1, cwnd)
  }

  lemma {:induction false} BurstSends(c: Conn, n: nat)
    requires 0 < c.cfg.mss
    requires c.snd.popped.None? && c.snd.lastAck == c.snd.isn && c.snd.isn <= c.snd.curr + 1
    requires c.snd.curr + 1 + n <= c.snd.isn + |c.snd.chunks|
    requires c.snd.curr + 1 + n <= c.snd.lastAck + c.snd.flow && 0 <= c.snd.flow
    ensures Unfloored(c, Burst(n, c.snd.flow))
    ensures Run(c, Burst(n, c.snd.flow)).rcv == c.rcv
    ensures c.net.data <= Run(c, Burst(n, c.snd.flow)).net.data
    ensures n > 0 ==> exists p <- Run(c, Burst(n, c.snd.flow)).net.data :: p.index == c.snd.curr + n
    decreases n
  {
    if n > 0 {
      var e := SendNew(c.snd.flow);
      var c1 := Step(c, e);
      BurstSends(c1, n - 1);
      assert Burst(n, c.snd.flow)[1..] == Burst(n - 1, c.snd.flow);
      var i := c.snd.curr + 1;
      var p := S.DataPkt(i, c.snd.chunks[i - c.snd.isn]);
      assert p in c1.net.data;
    }
  }

  /** A window of the whole receive buffer is one packet too many: with no acknowledgement at all
      the last packet of the first window finds no room. */
  lemma FullBufferWindowOverruns(cfg: Config) returns (es: seq<Event>, p: S.DataPkt)
    requires WellFormed(cfg) && cfg.window >= cfg.bufSize
    ensures Unfloored(Init(cfg), es) && Refusable(Run(Init(cfg), es), p)
  {
    var data := Zeros(cfg.bufSize * cfg.mss);
    var c1 := Step(Init(cfg), Accept(data, false));
    ChunkCount(cfg.bufSize, cfg.mss);
    BurstSends(c1, cfg.bufSize);
    es := [Accept(data, false)] + Burst(cfg.bufSize, cfg.window);
    assert es[1..] == Burst(cfg.bufSize, cfg.window);
    p :| p in Run(Init(cfg), es).net.data && p.index == cfg.isn - 1 + cfg.bufSize;
  }

  lemma ChunkCount(n: nat, mss: nat)
    requires 0 < mss
    ensures |Chunks(Zeros(n * mss), mss, 1, false, true)| == n
  {
    hide Chunks;
    var len := n * mss;
    ChunksCounted(Zeros(len), mss, 1, false, true);
    DivModUnique(len, mss, n, 0);
  }

  /** As long as no ACK had to be raised to the minimum window, no packet is ever refused for
      lack of space exactly when the initial window is smaller than the receive buffer. */
  lemma RefusalFreeIff(cfg: Config)
    requires WellFormed(cfg)
    ensures NeverRefuses(cfg) <==> cfg.window <= cfg.bufSize - 1
  {
    hide Run, Unfloored;
    if cfg.window <= cfg.bufSize - 1 {
      forall es: seq<Event>, p: S.DataPkt | Unfloored(Init(cfg), es)
        ensures !Refusable(Run(Init(cfg), es), p)
      {
        InitGood(cfg);
        RunWithinEdge(Init(cfg), 0, es);
      }
    } else {
      var es, p := FullBufferWindowOverruns(cfg);
      assert !(!Refusable(Run(Init(cfg), es), p));
    }
  }

  // ----- With raised window fields -----

  /** What survives when window fields are raised to the minimum of two: every run keeps the sender's
      edge and all packets at most two beyond the receiver's edge, provided the initial window is. */
  lemma WithinTwoIff(cfg: Config)
    requires WellFormed(cfg)
    ensures (forall es: seq<Event> :: WithinEdge(Run(Init(cfg), es), 2)) <==> cfg.window <= cfg.bufSize + 1
  {
    hide Run, WithinEdge;
    if cfg.window <= cfg.bufSize + 1 {
      forall es: seq<Event>
        ensures WithinEdge(Run(Init(cfg), es), 2)
      {
        InitGood(cfg);
        StartEdge(cfg);
        RunWithinEdge(Init(cfg), 2, es);
      }
    } else {
      StartEdge(cfg);
      assert !WithinEdge(Run(Init(cfg), []), 2);
    }
  }

  lemma StartEdge(cfg: Config)
    requires WellFormed(cfg)
    ensures Run(Init(cfg), []) == Init(cfg) && (WithinEdge(Init(cfg), 2) <==> cfg.window <= cfg.bufSize + 1)
  {
  }

  /** The receive buffer fills up, packet by packet, while nobody reads. */
  lemma {:induction false} Fill(cfg: Config, n: nat) returns (c: Conn)
    requires WellFormed(cfg) && 1 <= cfg.window && n < cfg.bufSize
    ensures Reaches(Init(cfg), c) && At(c, n, n, n, 0) && c.cfg == cfg && c.snd.isn == cfg.isn && 1 <= c.snd.flow
  {
    hide At, Reaches;
    if n == 0 {
      c := Init(cfg);
      Stay(c);
      Begin(cfg);
    } else {
      c := Fill(cfg, n - 1);
      c := FillOne(Init(cfg), c, n - 1);
    }
  }

  lemma FillOne(c0: Conn, c: Conn, n: nat) returns (c': Conn)
    requires 0 < c0.cfg.mss && Reaches(c0, c) && At(c, n, n, n, 0) && n + 1 < c.cfg.bufSize && 1 <= c.snd.flow
    ensures Reaches(c0, c') && At(c', n + 1, n + 1, n + 1, 0) && c'.cfg == c.cfg && c'.snd.isn == c.snd.isn
    ensures 1 <= c'.snd.flow
  {
    hide Good, Reaches;
    c' := SendOne(c0, c, n, n, n, 0);
    c' := AckAll(c0, c', n + 1, n, n, 0, true);
  }

  /** Whatever the sizes, a full buffer that nobody reads is overrun: its last ACK advertises room
      for two packets although there is none. */
  lemma FlooredAckOverruns(cfg: Config) returns (es: seq<Event>, p: S.DataPkt)
    requires WellFormed(cfg) && 1 <= cfg.window
    ensures Refusable(Run(Init(cfg), es), p)
  {
    hide Inv, Told, Run, Step;
    var c := Fill(cfg, cfg.bufSize - 1);
    c := AcceptOne(Init(cfg), c);
    c, p := SendNext(Init(cfg), c, 1);
    BufferSize(c);
    es :| Run(Init(cfg), es) == c;
  }

  /** Over all runs, raised window fields included, refusals for lack of space are impossible only
      if the sender may not send at all. */
  lemma NeverRefusesIff(cfg: Config)
    requires WellFormed(cfg)
    ensures (forall es: seq<Event>, p: S.DataPkt :: !Refusable(Run(Init(cfg), es), p)) <==> cfg.window == 0
  {
    hide Run;
    if cfg.window == 0 {
      forall es: seq<Event>, p: S.DataPkt
        ensures !Refusable(Run(Init(cfg), es), p)
      {
        StaysMute(Init(cfg), es);
      }
    } else {
      var es, p := FlooredAckOverruns(cfg);
      assert !(!Refusable(Run(Init(cfg), es), p));
    }
  }
}
