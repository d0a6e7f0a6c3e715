/** The number that the receiver takes for used by the sender: it never falls, and the ACK number
    never runs away from it by a whole turn of the sequence numbers. */
module Known {
  import opened SeqNo
  import opened Connection
  import S = SndModel
  import R = RcvModel
  import M = MsgModel

  /** The records of the ACK window rise, and none lies below the number known to be used. */
  ghost predicate Trailing(r: R.Rcv) {
    && (forall j, k :: 0 <= j < k < |r.history| ==> r.history[j].ack <= r.history[k].ack)
    && (forall k :: 0 <= k < |r.history| ==> r.lastAckAck <= r.history[k].ack)
  }

  lemma Ack2Trails(r: R.Rcv, no: int, rttPositive: bool)
    requires Trailing(r)
    ensures Trailing(R.OnAck2(r, no, rttPositive)) && r.lastAckAck <= R.OnAck2(r, no, rttPositive).lastAckAck
  {
    hide Newer;
  }

  lemma FullAckTrails(r: R.Rcv, late: bool)
    requires R.RcvInv(r) && Trailing(r)
    ensures Trailing(R.SendFullAck(r, late).0) && R.SendFullAck(r, late).0.lastAckAck == r.lastAckAck
  {
    hide Wire, Newer, R.NextExpected, R.Partitioned, R.Recorded;
    R.NextExpectedBounds(r);
    forall k | 0 <= k < |r.history|
      ensures r.history[k].ack <= r.lastAck
    {
      R.RecordedAt(r.history, r.ackLog, k);
    }
  }

  lemma StepTrails(c: Conn, e: Event)
    requires Good(c) && Trailing(c.rcv)
    ensures Trailing(Step(c, e).rcv) && c.rcv.lastAckAck <= Step(c, e).rcv.lastAckAck
  {
    hide Told, NetInv, Linked, S.SndInv, R.RcvInv, Trailing, R.OnAck2, R.SendFullAck, M.ReadMsg, R.ReadBytes;
    match e
    case FullAckTimer(late) => FullAckTrails(c.rcv, late);
    case DeliverAck2(no, rttPositive) => Ack2Trails(c.rcv, no, rttPositive);
    case DeliverData(pkt) => SameTrail(c.rcv, R.OnData(c.rcv, pkt.index, pkt.chunk).0);
    case Read(len) => SameTrail(c.rcv, R.Read(c.rcv, len));
    case ReadMsg(room) =>
      M.ReadMsgFrame(c.rcv, room);
      SameTrail(c.rcv, M.ReadMsg(c.rcv, room));
    case _ =>
  }

  lemma SameTrail(r: R.Rcv, r': R.Rcv)
    requires Trailing(r) && r'.history == r.history && r'.lastAckAck == r.lastAckAck
    ensures Trailing(r')
  {
  }

  lemma {:induction false} RunTrails(c: Conn, es: seq<Event>)
    requires 0 < c.cfg.mss && Good(c) && Trailing(c.rcv)
    ensures Trailing(Run(c, es).rcv) && c.rcv.lastAckAck <= Run(c, es).rcv.lastAckAck
    decreases |es|
  {
    hide Inv, Told, Step, Trailing;
    if es != [] {
      StepTrails(c, es[0]);
      StepGood(c, es[0]);
      RunTrails(Step(c, es[0]), es[1..]);
    }
  }

  /** Whatever happens after a run, the number known to be used does not fall. */
  lemma KnownNeverFalls(cfg: Config, es: seq<Event>, more: seq<Event>)
    requires WellFormed(cfg)
    ensures Run(Init(cfg), es).rcv.lastAckAck <= Run(Init(cfg), es + more).rcv.lastAckAck
  {
    hide Good, Run, Step;
    InitGood(cfg);
    Reachable(cfg, es);
    RunTrails(Init(cfg), es);
    RunTrails(Run(Init(cfg), es), more);
    RunConcat(Init(cfg), es, more);
  }

  // ----- The ACK number stays within one turn -----

  /** How far an ACK can go out ahead of the number known to be used. */
  const REACH: int := MODULUS - TH

  ghost predicate Following(c: Conn) {
    && (forall a <- c.rcv.ackLog :: a <= c.rcv.lastAckAck + REACH)
    && S.AckedTo(c.snd) <= c.rcv.lastAckAck + REACH
  }

  lemma WithinTurn(c: Conn)
    requires Good(c) && Following(c)
    ensures R.NextExpected(c.rcv) <= c.rcv.lastAckAck + REACH + Span(c.cfg)
  {
    hide Told, NetInv, R.Partitioned, R.Partial;
    R.NextExpectedBounds(c.rcv);
  }

  lemma StepFollows(c: Conn, e: Event)
    requires Good(c) && Following(c) && Trailing(c.rcv) && Span(c.cfg) < TH
    ensures Following(Step(c, e))
  {
    hide Told, Linked, S.SndInv, R.RcvInv, Following, Trailing, R.OnAck2, R.SendFullAck, M.ReadMsg, R.ReadBytes, Wire;
    match e
    case FullAckTimer(late) => FullAckFollows(c, late);
    case DeliverAck(ack, reply) => TakeAckFollows(c, ack, reply);
    case DeliverAck2(no, rttPositive) =>
      Ack2Trails(c.rcv, no, rttPositive);
      Ack2Follows(c, no, rttPositive);
    case ReadMsg(room) =>
      M.ReadMsgFrame(c.rcv, room);
      OtherFollows(c, e);
    case _ => OtherFollows(c, e);
  }

  lemma FullAckFollows(c: Conn, late: bool)
    requires Good(c) && Following(c) && Span(c.cfg) < TH
    ensures Following(Step(c, FullAckTimer(late)))
  {
    hide Told, Linked, NetInv, S.SndInv, R.RcvOrdered, Wire, Newer, R.NextExpected;
    WithinTurn(c);
    var d := R.NextExpected(c.rcv) - c.rcv.lastAckAck;
    if 0 < d {
      NewerIff(c.rcv.lastAckAck, d);
    }
  }

  lemma TakeAckFollows(c: Conn, ack: R.Ack, reply: bool)
    requires Good(c) && Following(c)
    ensures Following(Step(c, DeliverAck(ack, reply)))
  {
    hide Told, Linked, S.SndInv, R.RcvOrdered, Wire, R.NextExpected;
    if ack in c.net.acks && ack.FullAck? {
      assert c.rcv.ackLog[ack.no - 1] in c.rcv.ackLog;
    }
  }

  lemma Ack2Follows(c: Conn, no: int, rttPositive: bool)
    requires Following(c) && 0 < c.cfg.mss && c.rcv.lastAckAck <= R.OnAck2(c.rcv, no, rttPositive).lastAckAck
    ensures Following(Step(c, DeliverAck2(no, rttPositive)))
  {
    hide Newer;
  }

  lemma OtherFollows(c: Conn, e: Event)
    requires Following(c) && 0 < c.cfg.mss
    requires !e.FullAckTimer? && !e.DeliverAck? && !e.DeliverAck2?
    requires e.ReadMsg? && !c.cfg.stream ==>
               var r := M.ReadMsg(c.rcv, e.room); r.ackLog == c.rcv.ackLog && r.lastAckAck == c.rcv.lastAckAck
    ensures Following(Step(c, e))
  {
    hide M.ReadMsg, Wire, R.NextExpected, R.ReadBytes;
  }

  lemma {:induction false} RunFollows(c: Conn, es: seq<Event>)
    requires 0 < c.cfg.mss && Good(c) && Following(c) && Trailing(c.rcv) && Span(c.cfg) < TH
    ensures Following(Run(c, es))
    decreases |es|
  {
    hide Inv, Told, Step, Trailing, Following;
    if es != [] {
      StepFollows(c, es[0]);
      StepTrails(c, es[0]);
      StepGood(c, es[0]);
      RunFollows(Step(c, es[0]), es[1..]);
    }
  }

  /** In every run the ACK number, and with it every number below, is less than a whole turn of the
      sequence numbers ahead of the number known to be used. */
  lemma NeverLapped(cfg: Config, es: seq<Event>)
    requires WellFormed(cfg) && Span(cfg) < TH
    ensures
      var r := Run(Init(cfg), es).rcv;
      R.NextExpected(r) - r.lastAckAck <= REACH + Span(cfg) < MODULUS
  {
    hide Good, Run, Step, Following, R.NextExpected;
    InitGood(cfg);
    Starts(cfg);
    RunFollows(Init(cfg), es);
    Reachable(cfg, es);
    WithinTurn(Run(Init(cfg), es));
  }

  /** No record reaches further ahead either. */
  lemma RecordsInReach(cfg: Config, es: seq<Event>, k: nat)
    requires WellFormed(cfg) && k < |Run(Init(cfg), es).rcv.history|
    ensures
      var r := Run(Init(cfg), es).rcv;
      r.lastAckAck <= r.history[k].ack && (Span(cfg) < TH ==> r.history[k].ack <= r.lastAckAck + REACH)
  {
    hide Told, NetInv, Linked, S.SndInv, R.RcvOrdered, R.Recorded, Run, Step;
    InitGood(cfg);
    Starts(cfg);
    Reachable(cfg, es);
    RunTrails(Init(cfg), es);
    if Span(cfg) < TH {
      RunFollows(Init(cfg), es);
    }
    var r := Run(Init(cfg), es).rcv;
    R.RecordedAt(r.history, r.ackLog, k);
  }

  lemma Starts(cfg: Config)
    requires WellFormed(cfg)
    ensures Following(Init(cfg)) && Trailing(Init(cfg).rcv)
  {
  }
}
