/** No deadlock: whatever has happened, and even if every packet now on the network is lost,
    timers, retransmission and the minimum window of two can still deliver every accepted byte. */
module Recovery {
  import opened Stream
  import opened IntSets
  import opened SeqNo
  import opened MsgField
  import opened Connection
  import opened Rounds
  import Delivery
  import S = SndModel
  import R = RcvModel
  import M = MsgModel

  /** The connection after the network has dropped everything in flight. */
  function Blackout(c: Conn): Conn {
    c.(net := Net({}, {}, {}, {}))
  }

  // ----- The sender's window never closes for good -----

  /** Whenever the sender has released all it knows acknowledged, it may send at least one packet. */
  ghost predicate Open(s: S.Snd) {
    S.AckedTo(s) == s.lastAck ==> s.flow >= 1
  }

  lemma StepKeepsOpen(c: Conn, e: Event)
    requires Inv(c) && Open(c.snd)
    ensures Open(Step(c, e).snd)
  {
    hide Told;
  }

  lemma {:induction false} RunKeepsOpen(c: Conn, es: seq<Event>)
    requires 0 < c.cfg.mss && Good(c) && Open(c.snd)
    ensures Open(Run(c, es).snd)
    decreases |es|
  {
    hide Step, Told;
    if es != [] {
      StepKeepsOpen(c, es[0]);
      StepGood(c, es[0]);
      RunKeepsOpen(Step(c, es[0]), es[1..]);
    }
  }

  // ----- Stages of a recovery -----

  lemma ThenStep(c: Conn, c1: Conn, e: Event) returns (c2: Conn)
    requires 0 < c.cfg.mss && Reaches(c, c1) && Good(c1) && Open(c1.snd)
    ensures c2 == Step(c1, e) && Reaches(c, c2) && Good(c2) && Open(c2.snd)
  {
    hide Told, Step, Reaches;
    c2 := Next(c, c1, e);
    StepKeepsOpen(c1, e);
  }

  ghost predicate Idle(c: Conn) {
    Good(c) && Open(c.snd) && c.snd.pendingAck.None? && c.snd.popped.None?
  }

  /** Nothing accepted in between, so the two states promise the same bytes, and messages read in
      between were read whole. */
  ghost predicate Onward(c: Conn, c': Conn)
    requires 0 < c.cfg.mss
  {
    && Reaches(c, c') && c'.cfg == c.cfg && c'.snd.isn == c.snd.isn
    && c'.snd.chunks == c.snd.chunks && c'.snd.calls == c.snd.calls
    && Uncut(c.rcv.messages, c'.rcv.messages, Room(c))
  }

  /** Room for any message so far. */
  function Room(c: Conn): nat {
    |Flatten(c.snd.chunks)|
  }

  lemma Then(a: Conn, b: Conn, c: Conn)
    requires 0 < a.cfg.mss && Onward(a, b) && Onward(b, c)
    ensures Onward(a, c)
  {
    hide Reaches;
    Trans(a, b, c);
  }

  lemma Settle(c: Conn) returns (c': Conn)
    requires Good(c) && Open(c.snd)
    ensures Onward(c, c') && Idle(c') && c'.rcv == c.rcv
  {
    hide Told;
    Stay(c);
    var c1 := ThenStep(c, c, CommitAck);
    assert c1.snd.pendingAck.None? && c1.snd.chunks == c.snd.chunks && c1.snd.isn == c.snd.isn && c1.rcv == c.rcv;
    c' := ThenStep(c, c1, Retransmit);
  }

  /** The head of the loss list goes back on the network. */
  lemma ResendFirst(c: Conn) returns (c': Conn)
    requires Idle(c) && c.snd.loss != {}
    ensures Onward(c, c') && Idle(c') && c'.rcv == c.rcv
    ensures c'.snd == c.snd.(loss := c.snd.loss - {Min(c.snd.loss)})
    ensures c.net.data <= c'.net.data
    ensures exists p <- c'.net.data :: p.index == Min(c.snd.loss)
  {
    hide Told, NetInv, Linked, R.RcvInv, Reaches;
    Stay(c);
    var c1 := ThenStep(c, c, PopLost);
    c' := ThenStep(c, c1, Retransmit);
    var i := Min(c.snd.loss);
    assert i in c.snd.loss;
    assert S.DataPkt(i, c.snd.chunks[i - c.snd.isn]) in c'.net.data;
  }

  lemma {:induction false} Drain(c: Conn) returns (c': Conn)
    requires Idle(c)
    ensures Onward(c, c') && Idle(c') && c'.rcv == c.rcv && c'.snd.loss == {}
    decreases |c.snd.loss|
  {
    hide Told;
    if c.snd.loss == {} {
      Stay(c);
      c' := c;
    } else {
      var c1 := ResendFirst(c);
      assert c1.snd.loss < c.snd.loss;
      c' := Drain(c1);
      Then(c, c1, c');
    }
  }

  lemma {:induction false} ResendUpTo(c: Conn, n: int) returns (c': Conn)
    requires Idle(c) && n in c.snd.loss
    ensures Onward(c, c') && Idle(c') && c'.rcv == c.rcv
    ensures exists p <- c'.net.data :: p.index == n
    decreases |c.snd.loss|
  {
    hide Told;
    var c1 := ResendFirst(c);
    if n == Min(c.snd.loss) {
      c' := c1;
    } else {
      c' := ResendUpTo(c1, n);
      Then(c, c1, c');
    }
  }

  /** The ACK number is less than half the number space ahead of the number that the sender is
      known to have acted on, so a full ACK is not taken for an old one. */
  ghost predicate Tracked(c: Conn) {
    R.NextExpected(c.rcv) < c.rcv.lastAckAck + TH
  }

  /** A full ACK of the current ACK number is on the network and in the history, unless the sender
      is known to have acted on it. */
  ghost predicate Announced(c: Conn) {
    R.NextExpected(c.rcv) > c.rcv.lastAckAck ==> exists a <- c.net.acks :: Fresh(c, a)
  }

  ghost predicate Fresh(c: Conn, a: R.Ack) {
    && a.FullAck? && a.ack == R.NextExpected(c.rcv)
    && R.Lookup(c.rcv.history, a.no) < |c.rcv.history|
  }

  /** Acknowledge everything received in order. */
  lemma Acknowledge(c: Conn) returns (c': Conn)
    requires Idle(c) && Tracked(c)
    ensures Onward(c, c') && Idle(c') && c'.snd == c.snd && Announced(c')
    ensures c'.rcv.lastAck == R.NextExpected(c'.rcv) == R.NextExpected(c.rcv)
    ensures c'.rcv.lastAckAck == c.rcv.lastAckAck
  {
    hide Told, Wire, Newer, R.Stored, R.Lookup;
    Stay(c);
    R.NextExpectedBounds(c.rcv);
    R.FullAckKeeps(c.rcv, true);
    NewerNear(R.NextExpected(c.rcv), c.rcv.lastAckAck);
    CmpAgrees(R.NextExpected(c.rcv), c.rcv.lastAckAck);
    R.StoredIsFound(c.rcv.history, R.AckRec(|c.rcv.ackLog| + 1, R.NextExpected(c.rcv)));
    c' := ThenStep(c, c, FullAckTimer(true));
    var out := R.SendFullAck(c.rcv, true).1;
    if out.Some? {
      assert out.value in c'.net.acks && Fresh(c', out.value);
    }
  }

  /** What is acknowledged has been read, except the beginning of a message. */
  ghost predicate Emptied(c: Conn) {
    && c.rcv.lastAck == R.NextExpected(c.rcv)
    && (if c.cfg.stream then c.rcv.readPos == c.rcv.lastAck else M.NoEnd(c.rcv))
  }

  /** In message mode every message fits the receive buffer. */
  ghost predicate Fitting(c: Conn) {
    c.cfg.stream || forall j :: 0 <= j < |c.snd.calls| ==> c.snd.calls[j].count <= c.cfg.bufSize - 1
  }

  /** Then there is room for one more packet. */
  lemma RoomLeft(c: Conn)
    requires Good(c) && Emptied(c) && Fitting(c) && 2 <= c.cfg.bufSize
    ensures 1 <= R.Avail(c.rcv)
  {
    hide NetInv, Framed, S.Contiguous, IsFirst, IsLast, OrderFlag, M.Uniform, M.Accounted, M.History, R.Partitioned;
    if c.rcv.readPos < c.rcv.lastAck {
      var j := S.CallOf(c.snd, c.rcv.readPos - c.snd.isn);
      var call := c.snd.calls[j];
      assert S.CallStored(c.snd.chunks, call);
      var end := c.snd.isn + call.start + call.count - 1;
      assert Last(c.snd.chunks[end - c.snd.isn]);
      M.NoEndAt(c.rcv, end);
    }
  }

  /** Acknowledge and read all there is. */
  lemma Clear(c: Conn) returns (c': Conn)
    requires Idle(c) && Tracked(c)
    ensures Onward(c, c') && Idle(c') && c'.snd == c.snd && Announced(c')
    ensures R.NextExpected(c'.rcv) == R.NextExpected(c.rcv) && c'.rcv.lastAckAck == c.rcv.lastAckAck
    ensures Emptied(c')
  {
    hide Told, Reaches, M.NoEnd;
    var c1 := Acknowledge(c);
    Stay(c1);
    if c.cfg.stream {
      c' := ReadAll(c1, c1);
    } else {
      c' := ReadMessages(c1, c1, Room(c1));
    }
    Then(c, c1, c');
    if R.NextExpected(c.rcv) > c.rcv.lastAckAck {
      var a :| a in c1.net.acks && Fresh(c1, a);
      assert Fresh(c', a);
    }
  }

  /** Storing the smallest missing packet advances the ACK number. */
  lemma FillAdvances(r: R.Rcv, chunk: Chunk)
    requires R.RcvOrdered(r) && r.lastAck == R.NextExpected(r) && 1 <= R.Avail(r)
    ensures R.NextExpected(R.OnData(r, r.lastAck, chunk).0) > r.lastAck
  {
    R.NextExpectedBounds(r);
    var r' := R.OnData(r, r.lastAck, chunk).0;
    if r'.loss != {} {
      assert Min(r'.loss) in r.loss;
    }
  }

  /** Ready for the next packet: everything received is acknowledged, known to be acknowledged, and
      read as far as possible, and if everything sent has arrived, the window is open. */
  ghost predicate Ready(c: Conn) {
    && Idle(c) && c.snd.loss == {} && 2 <= c.cfg.bufSize && Emptied(c) && Fitting(c)
    && c.rcv.lastAckAck == R.NextExpected(c.rcv)
    && (R.NextExpected(c.rcv) == c.snd.curr + 1 ==> c.snd.lastAck == c.snd.curr + 1 && c.snd.flow >= 1)
  }

  /** Deliver the smallest missing packet from the network. */
  lemma DeliverNext(c: Conn, c1: Conn) returns (c': Conn)
    requires 0 < c.cfg.mss && Onward(c, c1) && Idle(c1) && 2 <= c1.cfg.bufSize
    requires c1.rcv.lastAck == R.NextExpected(c1.rcv) && 1 <= R.Avail(c1.rcv)
    requires exists p <- c1.net.data :: p.index == R.NextExpected(c1.rcv)
    ensures Onward(c, c') && Idle(c') && R.NextExpected(c1.rcv) < R.NextExpected(c'.rcv) <= c1.snd.curr + 1
    ensures c'.rcv.lastAckAck == c1.rcv.lastAckAck
  {
    hide Told;
    var p :| p in c1.net.data && p.index == R.NextExpected(c1.rcv);
    FillAdvances(c1.rcv, p.chunk);
    c' := ThenStep(c, c1, DeliverData(p));
    R.NextExpectedBounds(c'.rcv);
  }

  /** The missing packet was sent before: the EXP timer brings it back. */
  lemma FetchOld(c: Conn) returns (c': Conn)
    requires Ready(c) && R.NextExpected(c.rcv) <= c.snd.curr && Span(c.cfg) < TH
    ensures Onward(c, c') && Idle(c') && Tracked(c') && R.NextExpected(c'.rcv) > R.NextExpected(c.rcv)
  {
    hide Told, Emptied, Fitting;
    RoomLeft(c);
    Stay(c);
    var c1 := ThenStep(c, c, ExpTimer);
    var c2 := ResendUpTo(c1, R.NextExpected(c.rcv));
    Then(c, c1, c2);
    c' := DeliverNext(c, c2);
  }

  /** All that was sent has arrived: send the next one. */
  lemma FetchNew(c: Conn) returns (c': Conn)
    requires Ready(c) && R.NextExpected(c.rcv) == c.snd.curr + 1 < c.snd.isn + |c.snd.chunks|
    ensures Onward(c, c') && Idle(c') && Tracked(c') && R.NextExpected(c'.rcv) > R.NextExpected(c.rcv)
  {
    hide Told, Fitting;
    RoomLeft(c);
    Stay(c);
    var c1 := ThenStep(c, c, SendNew(1));
    var i := c.snd.curr + 1;
    assert S.DataPkt(i, c.snd.chunks[i - c.snd.isn]) in c1.net.data;
    c' := DeliverNext(c, c1);
  }

  lemma FullAckReopens(s: S.Snd, ack: int, avail: int)
    requires s.pendingAck.None? && s.popped.None? && s.loss == {} && s.lastAck <= ack <= s.curr + 1 && 1 <= avail
    ensures
      var s' := S.CommitAck(S.OnFullAck(s, ack, avail));
      && s'.pendingAck.None? && s'.popped.None? && s'.loss == {}
      && s'.chunks == s.chunks && s'.isn == s.isn && s'.curr == s.curr
      && s'.lastAck == ack && s'.flow >= 1
  {
  }

  /** A suppressed ACK means that the sender has used it, so its window is open. */
  lemma AlreadyOpen(c: Conn)
    requires Idle(c) && R.NextExpected(c.rcv) == c.snd.curr + 1 <= c.rcv.lastAckAck
    ensures c.snd.lastAck == c.snd.curr + 1 && c.snd.flow >= 1
  {
    hide Told;
  }

  lemma AckFacts(c: Conn, a: R.Ack)
    requires Inv(c) && a in c.net.acks && a.FullAck? && a.ack == R.NextExpected(c.rcv)
    ensures a.avail >= 2 && c.snd.lastAck <= a.ack <= c.snd.curr + 1
    ensures R.Recorded(c.rcv.history, c.rcv.ackLog) && 1 <= a.no <= |c.rcv.ackLog| && a.ack == c.rcv.ackLog[a.no - 1]
  {
    R.NextExpectedBounds(c.rcv);
  }

  /** The sender acts on the latest full ACK, and the receiver learns of it. */
  lemma UseAck(c: Conn, a: R.Ack) returns (c': Conn)
    requires Idle(c) && Tracked(c) && c.snd.loss == {}
    requires a in c.net.acks && Fresh(c, a) && a.ack > c.rcv.lastAckAck
    ensures Onward(c, c') && Idle(c')
    ensures c'.rcv == c.rcv.(history := c'.rcv.history, lastAckAck := a.ack)
    ensures c'.snd.curr == c.snd.curr && c'.snd.lastAck == a.ack && c'.snd.flow >= 1 && c'.snd.loss == {}
  {
    hide Told, NetInv, Linked, R.RcvInv, S.SndInv, Reaches, R.OnAck2, R.Lookup;
    Stay(c);
    AckFacts(c, a);
    FullAckReopens(c.snd, a.ack, a.avail);
    R.Ack2Confirms(c.rcv, a.no);
    var c1 := ThenStep(c, c, DeliverAck(a, true));
    assert c1.snd == S.OnFullAck(c.snd, a.ack, a.avail) && c1.rcv == c.rcv && c1.cfg == c.cfg && a.no in c1.net.ack2s;
    var c2 := ThenStep(c, c1, CommitAck);
    assert c2.snd == S.CommitAck(c1.snd) && c2.rcv == c.rcv && a.no in c2.net.ack2s;
    c' := ThenStep(c, c2, DeliverAck2(a.no, true));
    assert c'.snd == c2.snd && c'.rcv == R.OnAck2(c.rcv, a.no, true);
  }

  /** Acknowledge and read everything, and make sure that the receiver knows of it. */
  lemma GetReady(c: Conn) returns (c': Conn)
    requires Idle(c) && Tracked(c) && c.snd.loss == {} && 2 <= c.cfg.bufSize && Fitting(c)
    ensures Onward(c, c') && Ready(c') && R.NextExpected(c'.rcv) == R.NextExpected(c.rcv) && c'.snd.curr == c.snd.curr
  {
    hide Told, R.RcvInv, S.SndInv, NetInv;
    var c1 := Clear(c);
    if R.NextExpected(c1.rcv) > c1.rcv.lastAckAck {
      var a :| a in c1.net.acks && Fresh(c1, a);
      c' := UseAck(c1, a);
      Then(c, c1, c');
    } else {
      KnownIsAll(c1);
      if R.NextExpected(c1.rcv) == c1.snd.curr + 1 {
        AlreadyOpen(c1);
      }
      c' := c1;
    }
  }

  lemma KnownIsAll(c: Conn)
    requires Inv(c)
    ensures c.rcv.lastAckAck <= c.rcv.lastAck <= R.NextExpected(c.rcv)
  {
    R.NextExpectedBounds(c.rcv);
  }

  /** Everything accepted arrives, is acknowledged and read. */
  lemma {:induction false} DeliverAll(c: Conn) returns (c': Conn)
    requires Idle(c) && Tracked(c) && Fitting(c) && 2 <= c.cfg.bufSize && Span(c.cfg) < TH
    ensures Onward(c, c') && Good(c') && Emptied(c') && c'.rcv.lastAck == c.snd.isn + |c.snd.chunks|
    decreases c.snd.isn + |c.snd.chunks| - R.NextExpected(c.rcv)
  {
    hide Told, Reaches, M.NoEnd;
    var c0 := Drain(c);
    var c1 := GetReady(c0);
    Then(c, c0, c1);
    R.NextExpectedBounds(c1.rcv);
    if R.NextExpected(c1.rcv) == c.snd.isn + |c.snd.chunks| {
      c' := c1;
    } else {
      var c2;
      if R.NextExpected(c1.rcv) <= c1.snd.curr {
        c2 := FetchOld(c1);
      } else {
        c2 := FetchNew(c1);
      }
      Then(c, c1, c2);
      c' := DeliverAll(c2);
      Then(c, c2, c');
    }
  }

  /** In stream mode all bytes have then been read. */
  lemma AllOut(c: Conn)
    requires Good(c) && c.cfg.stream && Emptied(c) && c.rcv.lastAck == c.snd.isn + |c.snd.chunks|
    ensures c.rcv.out == Flatten(c.snd.chunks)
  {
    hide Told, NetInv, S.SndInv, Flatten;
    assert c.snd.chunks[..|c.snd.chunks|] == c.snd.chunks;
  }

  ghost predicate RecoversAfter(cfg: Config, es: seq<Event>)
    requires 0 < cfg.mss
  {
    exists more: seq<Event> :: Run(Blackout(Run(Init(cfg), es)), more).rcv.out == Delivery.Accepted(es)
  }

  lemma DarkIsGood(c: Conn)
    requires Good(c)
    ensures Good(Blackout(c))
  {
    hide Told, S.SndInv, R.RcvInv, Linked;
    assert Told(c) <==> Told(Blackout(c)) by {
      ToldOfEnds(c, Blackout(c));
    }
  }

  /** What is told about boundaries does not depend on the network. */
  lemma ToldOfEnds(c: Conn, c': Conn)
    requires c' == c.(net := c'.net)
    ensures Told(c) <==> Told(c')
  {
    hide M.MsgInv, S.Tiled;
  }

  lemma Recovers(cfg: Config, es: seq<Event>)
    requires WellFormed(cfg) && cfg.stream && Span(cfg) < TH && 2 <= cfg.bufSize && 1 <= cfg.window
    requires Tracked(Run(Init(cfg), es))
    ensures RecoversAfter(cfg, es)
  {
    hide Step, Good, Run;
    var c := Run(Init(cfg), es);
    Reachable(cfg, es);
    InitGood(cfg);
    RunKeepsOpen(Init(cfg), es);
    Delivery.AcceptedIsQueued(Init(cfg), es);
    var dark := Blackout(c);
    DarkIsGood(c);
    var c1 := Settle(dark);
    var c2 := DeliverAll(c1);
    Then(dark, c1, c2);
    AllOut(c2);
    var more :| Run(dark, more) == c2;
    assert Run(dark, more).rcv.out == Delivery.Accepted(es);
  }

  /** Every run recovers that ends with the ACK number less than `limit` ahead of the number that
      the sender is known to have acted on. */
  ghost predicate RecoverableWithin(cfg: Config, limit: int)
    requires 0 < cfg.mss
  {
    forall es: seq<Event> | R.NextExpected(Run(Init(cfg), es).rcv) < Run(Init(cfg), es).rcv.lastAckAck + limit ::
      RecoversAfter(cfg, es)
  }

  /** After every run that keeps the two numbers comparable, with every packet in flight lost, some
      continuation delivers exactly the bytes accepted so far: precisely when the buffer holds two
      packets and the initial window admits one. */
  lemma AlwaysRecoverable(cfg: Config)
    requires WellFormed(cfg) && cfg.stream && Span(cfg) < TH
    ensures RecoverableWithin(cfg, TH) <==> 2 <= cfg.bufSize && 1 <= cfg.window
  {
    hide Step, Good, Run, RecoversAfter;
    if 2 <= cfg.bufSize && 1 <= cfg.window {
      forall es: seq<Event> | R.NextExpected(Run(Init(cfg), es).rcv) < Run(Init(cfg), es).rcv.lastAckAck + TH
        ensures RecoversAfter(cfg, es)
      {
        Recovers(cfg, es);
      }
    } else {
      Stuck(cfg);
      StartsTracked(cfg);
    }
  }

  lemma StartsTracked(cfg: Config)
    requires WellFormed(cfg)
    ensures
      var r := Run(Init(cfg), [Accept([0], false)]).rcv;
      R.NextExpected(r) == r.lastAckAck
  {
    RunSnoc(Init(cfg), [], Accept([0], false));
    assert [] + [Accept([0], false)] == [Accept([0], false)];
  }

  lemma Stuck(cfg: Config)
    requires WellFormed(cfg) && cfg.stream && (cfg.bufSize == 1 || cfg.window == 0)
    ensures !RecoversAfter(cfg, [Accept([0], false)])
  {
    var es := [Accept([0], false)];
    InitGood(cfg);
    var c := Step(Init(cfg), es[0]);
    RunSnoc(Init(cfg), [], es[0]);
    assert [] + es == es;
    StepGood(Init(cfg), es[0]);
    assert Mute(Blackout(c));
    forall more: seq<Event>
      ensures Run(Blackout(c), more).rcv.out == []
    {
      StaysMute(Blackout(c), more);
    }
    assert Delivery.Accepted(es) == [0] + Delivery.Accepted(es[1..]);
  }

  // ----- Without ACK2s -----

  /** The sender's window ends at index `end`, and no full ACK or ACK2 is on its way. */
  ghost predicate ShutIn(c: Conn, end: int) {
    && c.snd.lastAck + c.snd.flow <= end && c.snd.curr + 1 <= end && c.snd.pendingAck.None? && c.net.ack2s == {}
    && (forall a <- c.net.acks :: a.LiteAck?)
  }

  /** The number of the next full ACK looks old: the code compares it with the number known to be
      used, which is a threshold or more behind, and nothing on its way can change this. */
  ghost predicate Stalled(c: Conn, end: int) {
    && Good(c) && c.rcv.lastAckAck + TH <= R.NextExpected(c.rcv)
    && Wire(c.rcv.lastAckAck) as int + (end - c.rcv.lastAckAck) < MODULUS
    && ShutIn(c, end)
  }

  lemma LooksOld(known: int, ack: int, end: int)
    requires known + TH <= ack <= end && Wire(known) as int + (end - known) < MODULUS
    ensures !Newer(ack, known)
  {
    var d := ack - known;
    assert Wire(known + d) as int == Wire(known) as int + d by {
      WireNoWrap(known, d);
    }
    NewerIff(known, d);
  }

  lemma WireNoWrap(a: int, d: nat)
    requires Wire(a) as int + d < MODULUS
    ensures Wire(a + d) as int == Wire(a) as int + d
  {
  }

  lemma NoFullAck(c: Conn, end: int, late: bool)
    requires Stalled(c, end)
    ensures R.SendFullAck(c.rcv, late).1.None?
  {
    hide Told, S.SndInv, NetInv, Wire, Newer;
    R.NextExpectedBounds(c.rcv);
    LooksOld(c.rcv.lastAckAck, R.NextExpected(c.rcv), end);
  }

  lemma StepStaysStalled(c: Conn, end: int, e: Event)
    requires Stalled(c, end)
    ensures Stalled(Step(c, e), end)
  {
    hide Good, Wire, Newer, R.NextExpected, Step;
    StepGood(c, e);
    StalledRest(c, end, e);
  }

  lemma StalledRest(c: Conn, end: int, e: Event)
    requires Stalled(c, end)
    ensures
      var c' := Step(c, e);
      && c'.cfg == c.cfg && c'.snd.isn == c.snd.isn && c'.rcv.lastAckAck == c.rcv.lastAckAck
      && R.NextExpected(c.rcv) <= R.NextExpected(c'.rcv) && ShutIn(c', end)
  {
    hide Told, Wire, Newer, NetInv, Linked, S.SndInv, M.ReadMsg;
    match e
    case DeliverData(pkt) => R.DataAdvances(c.rcv, pkt.index, pkt.chunk);
    case FullAckTimer(late) => NoFullAckShutIn(c, end, late);
    case Read(len) => R.ReadKeeps(c.rcv, len);
    case ReadMsg(room) => M.ReadMsgFrame(c.rcv, room);
    case _ => OtherShutIn(c, end, e);
  }

  lemma NoFullAckShutIn(c: Conn, end: int, late: bool)
    requires Stalled(c, end)
    ensures
      var c' := Step(c, FullAckTimer(late));
      && c'.snd == c.snd && c'.rcv == c.rcv.(lastAck := c'.rcv.lastAck) && ShutIn(c', end)
  {
    hide Told, Wire, Newer, NetInv, Linked, S.SndInv;
    NoFullAck(c, end, late);
  }

  lemma OtherShutIn(c: Conn, end: int, e: Event)
    requires ShutIn(c, end) && 0 < c.cfg.mss
    requires !e.DeliverData? && !e.FullAckTimer? && !e.Read? && !e.ReadMsg?
    ensures
      var c' := Step(c, e);
      && c'.snd.isn == c.snd.isn && c'.rcv == c.rcv && ShutIn(c', end)
  {
    hide Wire, Newer;
  }

  lemma {:induction false} StaysStalled(c: Conn, end: int, es: seq<Event>)
    requires 0 < c.cfg.mss && Stalled(c, end)
    ensures Stalled(Run(c, es), end) && c.snd.chunks <= Run(c, es).snd.chunks && Run(c, es).snd.isn == c.snd.isn
    decreases |es|
  {
    hide Stalled, Step;
    if es != [] {
      StepStaysStalled(c, end, es[0]);
      ChunksGrow(c, es[0]);
      StaysStalled(Step(c, es[0]), end, es[1..]);
    }
  }

  lemma ChunksGrow(c: Conn, e: Event)
    requires 0 < c.cfg.mss
    ensures c.snd.chunks <= Step(c, e).snd.chunks && Step(c, e).snd.isn == c.snd.isn
  {
  }

  /** Let the network drop everything. */
  lemma DarkIsStalled(c: Conn, end: int)
    requires Good(c) && c.rcv.lastAckAck + TH <= R.NextExpected(c.rcv)
    requires Wire(c.rcv.lastAckAck) as int + (end - c.rcv.lastAckAck) < MODULUS
    requires c.snd.lastAck + c.snd.flow <= end && c.snd.curr + 1 <= end && c.snd.pendingAck.None?
    ensures Stalled(Blackout(c), end)
  {
    hide Inv, Told, Wire, R.NextExpected;
    DarkIsGood(c);
  }

  /** How many packets on the sequence number next is 0. */
  lemma ToZero(isn: int) returns (k: nat)
    ensures Wire(isn + k) == 0
  {
    k := MODULUS - Wire(isn) as int;
  }

  /** With no ACK2 for `TH` packets the connection stalls: in some run the window then ends at `end`,
      before the last accepted packet, and never moves on.  ACK2s came until the number known to be
      used was 0, so that no number wraps in between. */
  lemma Stalls(cfg: Config) returns (es: seq<Event>, end: int)
    requires WellFormed(cfg) && Span(cfg) < TH && 2 <= cfg.bufSize && 1 <= cfg.window
    ensures
      var c := Run(Init(cfg), es);
      && Stalled(Blackout(c), end) && c.snd.isn <= end < c.snd.isn + |c.snd.chunks| && Singles(c)
      && R.NextExpected(c.rcv) == c.rcv.lastAckAck + TH
  {
    hide Inv, Told, Run, Step, Wire, IsLast;
    var c0 := Init(cfg);
    var n := TH - 1;
    var k := ToZero(cfg.isn);
    var c := Untold(cfg, k, n);
    var flow := c.snd.flow;
    FlowWithinSpan(c);
    c := AcceptSingles(c0, c, flow + 1);
    var p;
    c, p := SendNext(c0, c, 1);
    BufferSize(c);
    c := Arrives(c0, c, p);
    es := Witness(c0, c);
    end := cfg.isn + k + n + flow;
    DarkIsStalled(c, end);
  }

  /** What lies beyond that window is never delivered any more. */
  lemma StallsWithoutAck2(cfg: Config) returns (es: seq<Event>)
    requires WellFormed(cfg) && cfg.stream && Span(cfg) < TH && 2 <= cfg.bufSize && 1 <= cfg.window
    ensures R.NextExpected(Run(Init(cfg), es).rcv) == Run(Init(cfg), es).rcv.lastAckAck + TH
    ensures !RecoversAfter(cfg, es)
  {
    hide Run, Step, Stalled, Singles;
    var end;
    es, end := Stalls(cfg);
    var c := Run(Init(cfg), es);
    Delivery.AcceptedIsQueued(Init(cfg), es);
    forall more: seq<Event>
      ensures Run(Blackout(c), more).rcv.out != Delivery.Accepted(es)
    {
      StaysStalled(Blackout(c), end, more);
      DeliversPart(Run(Blackout(c), more), end, c.snd.chunks);
    }
  }

  lemma FlowWithinSpan(c: Conn)
    requires Good(c) && c.snd.pendingAck.None? && c.snd.lastAck == c.snd.lastDataAck
    ensures c.snd.flow <= Span(c.cfg)
  {
    hide Told, NetInv, Linked;
  }

  /** What is delivered ends where the window ends. */
  lemma DeliversPart(c: Conn, end: int, chunks: seq<Chunk>)
    requires Stalled(c, end) && c.cfg.stream && chunks <= c.snd.chunks && c.snd.isn <= end < c.snd.isn + |chunks|
    ensures c.rcv.out != Flatten(chunks)
  {
    hide Told, NetInv, Wire, R.Faithful, R.Partitioned, Flatten;
    var k := end - c.snd.isn;
    WithinPrefix(c.rcv, c.snd.chunks, k);
    assert c.snd.chunks[..k] == chunks[..k];
    FlattenPrefix(chunks, k + 1);
    FlattenTakeNext(chunks, k);
    assert c.snd.chunks[k] in c.snd.chunks;
  }

  /** A reader that has not passed packet `k` has at most the bytes before it. */
  lemma WithinPrefix(r: R.Rcv, chunks: seq<Chunk>, k: nat)
    requires R.RcvOrdered(r) && R.Faithful(r, chunks) && r.stream && r.lastAck <= r.isn + k && k <= |chunks|
    ensures |r.out| <= |Flatten(chunks[..k])|
  {
    var j := r.readPos - r.isn;
    FlattenPrefix(chunks[..k], j);
    assert chunks[..k][..j] == chunks[..j];
    if r.notch > 0 {
      FlattenTakeNext(chunks, j);
      FlattenPrefix(chunks[..k], j + 1);
      assert chunks[..k][..j + 1] == chunks[..j + 1];
    }
  }

  /** The bound on that lag is exact: every run within `limit` recovers if and only if the limit is
      at most the threshold of the comparison. */
  lemma RecoveryLimit(cfg: Config, limit: int)
    requires WellFormed(cfg) && cfg.stream && Span(cfg) < TH && 2 <= cfg.bufSize && 1 <= cfg.window
    ensures RecoverableWithin(cfg, limit) <==> limit <= TH
  {
    hide Run, RecoversAfter;
    if limit <= TH {
      forall es: seq<Event> | R.NextExpected(Run(Init(cfg), es).rcv) < Run(Init(cfg), es).rcv.lastAckAck + limit
        ensures RecoversAfter(cfg, es)
      {
        Recovers(cfg, es);
      }
    } else {
      var es := StallsWithoutAck2(cfg);
    }
  }
}
