/** How far windows and loss lists reach: for all sizes, the exact extremes over all runs. */
module Windows {
  import opened MsgField
  import opened IntSets
  import opened SeqNo
  import opened Connection
  import opened Rounds
  import S = SndModel
  import R = RcvModel
  import M = MsgModel

  /** The largest window that a full ACK ever advertises. */
  function Offer(cfg: Config): nat {
    S.Max(cfg.bufSize - 1, 2)
  }

  /** The largest window that the sender is ever given: nothing is acknowledged with a buffer of
      one slot. */
  function Widest(cfg: Config): nat {
    if cfg.window == 0 || cfg.bufSize == 1 then cfg.window else Span(cfg)
  }

  /** Packets sent and not released. */
  function Unreleased(c: Conn): int {
    c.snd.curr + 1 - c.snd.lastDataAck
  }

  function MostUnreleased(cfg: Config): nat {
    if cfg.window == 0 || cfg.bufSize == 1 then cfg.window else Span(cfg) + Offer(cfg)
  }

  // ----- No run goes further -----

  /** Full ACKs offer at most a buffer, and while one waits for AckLock the window ends at most that
      much after everything that was sent before. */
  ghost predicate Narrow(c: Conn) {
    && (forall a <- c.net.acks :: a.FullAck? ==> a.avail <= Offer(c.cfg))
    && (c.snd.pendingAck.Some? ==>
          && c.snd.lastAck + c.snd.flow <= c.snd.lastDataAck + Span(c.cfg) + Offer(c.cfg)
          && Unreleased(c) <= Span(c.cfg) + Offer(c.cfg))
  }

  lemma StepNarrow(c: Conn, e: Event)
    requires Good(c) && Narrow(c)
    ensures Narrow(Step(c, e))
  {
    hide Told, NetInv, Linked, Wire, Newer, R.NextExpected, R.Partitioned, M.ReadMsg, R.ReadBytes;
    match e
    case FullAckTimer(late) => OffersBuffer(c, late);
    case DeliverAck(ack, reply) => TakeNarrow(c, ack, reply);
    case _ =>
  }

  lemma OffersBuffer(c: Conn, late: bool)
    requires Good(c) && Narrow(c)
    ensures Narrow(Step(c, FullAckTimer(late)))
  {
    hide Told, NetInv, Linked, S.SndInv, Wire, Newer, R.Partitioned;
    R.NextExpectedBounds(c.rcv);
  }

  lemma TakeNarrow(c: Conn, ack: R.Ack, reply: bool)
    requires Good(c) && Narrow(c)
    ensures Narrow(Step(c, DeliverAck(ack, reply)))
  {
    hide Told, R.RcvInv, Linked;
  }

  lemma {:induction false} RunNarrow(c: Conn, es: seq<Event>)
    requires 0 < c.cfg.mss && Good(c) && Narrow(c)
    ensures Narrow(Run(c, es))
    decreases |es|
  {
    hide Inv, Told, Step, Narrow;
    if es != [] {
      StepNarrow(c, es[0]);
      StepGood(c, es[0]);
      RunNarrow(Step(c, es[0]), es[1..]);
    }
  }

  /** While an ACK waits for AckLock the sender may fill the next window, of at most a buffer. */
  lemma AtMost(cfg: Config, es: seq<Event>)
    requires WellFormed(cfg)
    ensures Unreleased(Run(Init(cfg), es)) <= MostUnreleased(cfg)
  {
    hide Run, Step;
    InitGood(cfg);
    Reachable(cfg, es);
    RunNarrow(Init(cfg), es);
    if cfg.window == 0 || cfg.bufSize == 1 {
      StaysMute(Init(cfg), es);
    } else {
      BoundNow(Run(Init(cfg), es));
    }
  }

  lemma BoundNow(c: Conn)
    requires Good(c) && Narrow(c)
    ensures Unreleased(c) <= Span(c.cfg) + Offer(c.cfg)
  {
    hide Told, NetInv, R.RcvInv, Linked;
  }

  // ----- Some run goes that far -----

  predicate Carries(data: set<S.DataPkt>, i: int) {
    exists p <- data :: p.index == i
  }

  ghost predicate Carried(data: set<S.DataPkt>, lo: int, hi: int) {
    forall i {:trigger Carries(data, i)} :: lo <= i < hi ==> Carries(data, i)
  }

  /** More packets are accepted and sent. */
  lemma {:induction false} SendMore(c0: Conn, c: Conn, n: nat) returns (c': Conn)
    requires 0 < c0.cfg.mss && Reaches(c0, c) && Good(c) && Singles(c) && c.snd.popped.None?
    requires c.snd.curr + 1 + n <= c.snd.lastAck + c.snd.flow
    ensures Reaches(c0, c') && Good(c') && Singles(c') && c'.cfg == c.cfg && c'.rcv == c.rcv
    ensures
      var s := c'.snd;
      s == c.snd.(curr := c.snd.curr + n, chunks := s.chunks, calls := s.calls, nextMsgNo := s.nextMsgNo)
    ensures c.net.data <= c'.net.data && Carried(c'.net.data, c.snd.curr + 1, c.snd.curr + 1 + n)
    decreases n
  {
    hide Told, NetInv, R.RcvInv, Linked, S.Windowed, Reaches, IsLast;
    if n == 0 {
      c' := c;
    } else {
      var p;
      c' := AcceptOne(c0, c);
      c', p := SendNext(c0, c', c.snd.flow);
      assert Carries(c'.net.data, c.snd.curr + 1);
      var i, sent := c.snd.curr + 1, c'.net.data;
      c' := SendMore(c0, c', n - 1);
      assert p in c'.net.data;
    }
  }

  /** The packets `base..base + sent` were sent and not acknowledged to the sender, although the
      first `got` of them have arrived and were read. */
  ghost predicate Batch(c: Conn, base: int, sent: int, got: int) {
    && Good(c) && Singles(c)
    && c.snd.popped.None? && c.snd.pendingAck.None? && c.snd.loss == {} && c.rcv.loss == {}
    && c.snd.lastAck == c.snd.lastDataAck == c.rcv.lastAckAck == base && c.snd.curr + 1 == base + sent
    && c.rcv.curr + 1 == c.rcv.lastAck == c.rcv.readPos == base + got
    && Carried(c.net.data, base, base + sent)
  }

  /** The widest window is open. */
  lemma Opened(cfg: Config) returns (c: Conn)
    requires WellFormed(cfg) && 1 <= cfg.window
    ensures Reaches(Init(cfg), c) && Batch(c, c.snd.lastAck, 0, 0) && c.cfg == cfg && c.snd.flow == Widest(cfg)
  {
    hide Inv, Told, Reaches, IsLast;
    var c0 := Init(cfg);
    Stay(c0);
    Begin(cfg);
    c := c0;
    if cfg.window < Widest(cfg) {
      c := SendOne(c0, c, 0, 0, 0, 0);
      c := AckAll(c0, c, 1, 0, 0, 0, false);
      c := ReadUp(c0, c);
      c := AckAll(c0, c, 1, 1, 0, 1, true);
      BufferSize(c);
    }
  }

  /** The packets arrive one by one; their ACKs are lost. */
  lemma {:induction false} TakeBatch(c0: Conn, c: Conn, base: int, sent: int, got: nat) returns (c': Conn)
    requires 0 < c0.cfg.mss && Reaches(c0, c) && Batch(c, base, sent, 0) && got <= sent < TH && 2 <= c.cfg.bufSize
    ensures Reaches(c0, c') && Batch(c', base, sent, got) && c'.cfg == c.cfg && c'.snd == c.snd
    decreases got
  {
    hide Batch, Reaches;
    if got == 0 {
      c' := c;
    } else {
      c' := TakeBatch(c0, c, base, sent, got - 1);
      c' := TakeOne(c0, c', base, sent, got - 1);
    }
  }

  lemma TakeOne(c0: Conn, c: Conn, base: int, sent: int, got: nat) returns (c': Conn)
    requires 0 < c0.cfg.mss && Reaches(c0, c) && Batch(c, base, sent, got) && got < sent < TH && 2 <= c.cfg.bufSize
    ensures Reaches(c0, c') && Batch(c', base, sent, got + 1) && c'.cfg == c.cfg && c'.snd == c.snd
  {
    hide Inv, Told, Reaches, IsLast;
    BufferSize(c);
    assert Carries(c.net.data, base + got);
    var p :| p in c.net.data && p.index == base + got;
    var a;
    c' := Arrives(c0, c, p);
    c', a := Acknowledged(c0, c');
    c' := ReadUp(c0, c');
  }

  /** A window of packets is sent, arrives, and is acknowledged at once; while the ACK waits for
      AckLock the next window goes out. */
  lemma TwoWindows(cfg: Config) returns (es: seq<Event>)
    requires WellFormed(cfg) && 1 <= cfg.window && Span(cfg) < TH
    ensures Unreleased(Run(Init(cfg), es)) == MostUnreleased(cfg)
  {
    hide Inv, Told, Reaches, Run, Step, IsLast;
    var c0 := Init(cfg);
    var c := Opened(cfg);
    var base, n := c.snd.lastAck, Widest(cfg);
    c := SendMore(c0, c, n);
    if cfg.bufSize > 1 {
      c := TakeBatch(c0, c, base, n, n);
      BufferSize(c);
      var a;
      c, a := Acknowledged(c0, c);
      c := Waiting(c0, c, a, false);
      c := SendMore(c0, c, Offer(cfg));
    }
    es := Witness(c0, c);
  }

  /** The number of unreleased packets that no run exceeds: a window and an advertised buffer. */
  lemma UnreleasedIff(cfg: Config, n: nat)
    requires WellFormed(cfg) && Span(cfg) < TH
    ensures (forall es: seq<Event> :: Unreleased(Run(Init(cfg), es)) <= n) <==> MostUnreleased(cfg) <= n
  {
    hide Run, Unreleased;
    if MostUnreleased(cfg) <= n {
      forall es: seq<Event>
        ensures Unreleased(Run(Init(cfg), es)) <= n
      {
        AtMost(cfg, es);
      }
    } else {
      var es := TwoWindows(cfg);
    }
  }

  /** While an ACK waits for AckLock the unreleased packets can exceed the widest window given,
      unless the buffer holds no packet at all or nothing may be sent. */
  lemma WindowGrowsIff(cfg: Config)
    requires WellFormed(cfg) && Span(cfg) < TH
    ensures (exists es: seq<Event> :: Unreleased(Run(Init(cfg), es)) > Span(cfg))
            <==> 2 <= cfg.bufSize && 1 <= cfg.window
  {
    hide Run, Unreleased;
    UnreleasedIff(cfg, Span(cfg));
  }

  // ----- Loss lists -----

  /** Two members `n` apart. */
  ghost predicate Apart(s: set<int>, n: int) {
    exists i, j :: i in s && j in s && i - j == n
  }

  lemma RangeApart(lo: int, hi: int, n: nat)
    requires lo + n <= hi
    ensures Apart(Range(lo, hi), n)
  {
    assert lo + n in Range(lo, hi) && lo in Range(lo, hi);
  }

  /** A whole window is sent and lost; the EXP timer schedules it. */
  lemma AllLost(cfg: Config, n: nat) returns (es: seq<Event>)
    requires WellFormed(cfg) && n < Widest(cfg)
    ensures Apart(Run(Init(cfg), es).snd.loss, n)
  {
    hide Told, NetInv, Reaches, Run, R.RcvInv, Linked, IsLast, Apart;
    var c0 := Init(cfg);
    var c := Opened(cfg);
    c := SendMore(c0, c, Widest(cfg));
    var lo, hi := c.snd.lastAck, c.snd.curr;
    c := Next(c0, c, ExpTimer);
    assert c.snd.loss == Range(lo, hi);
    RangeApart(lo, hi, n);
    es := Witness(c0, c);
  }

  /** Scheduled retransmissions lie exactly as far apart as the widest window allows. */
  lemma ScheduledApartIff(cfg: Config, n: nat)
    requires WellFormed(cfg)
    ensures (exists es: seq<Event> :: Apart(Run(Init(cfg), es).snd.loss, n)) <==> n < Widest(cfg)
  {
    hide Run, Apart;
    if n < Widest(cfg) {
      var es := AllLost(cfg, n);
    } else {
      forall es: seq<Event>
        ensures !Apart(Run(Init(cfg), es).snd.loss, n)
      {
        Reachable(cfg, es);
        if cfg.window == 0 || cfg.bufSize == 1 {
          StaysMute(Init(cfg), es);
        }
        WithinWindow(Run(Init(cfg), es), n);
      }
    }
  }

  lemma WithinWindow(c: Conn, n: nat)
    requires Good(c) && Widest(c.cfg) <= n && (c.cfg.window == 0 || c.cfg.bufSize == 1 ==> Mute(c))
    ensures !Apart(c.snd.loss, n)
  {
    hide Told, NetInv, R.RcvInv, Linked;
  }

  /** A buffer of packets is sent, and only the last one arrives. */
  lemma OnlyLast(cfg: Config, n: nat) returns (es: seq<Event>)
    requires WellFormed(cfg) && 1 <= cfg.window && n + 3 <= cfg.bufSize
    ensures Apart(Run(Init(cfg), es).rcv.loss, n)
  {
    hide Told, NetInv, Reaches, Run, S.SndInv, Linked, IsLast, Apart;
    var c0 := Init(cfg);
    var c := Opened(cfg);
    var base := c.snd.lastAck;
    c := SendMore(c0, c, cfg.bufSize - 1);
    BufferSize(c);
    assert Carries(c.net.data, base + cfg.bufSize - 2);
    var p :| p in c.net.data && p.index == base + cfg.bufSize - 2;
    c := Next(c0, c, DeliverData(p));
    assert c.rcv.loss == Range(base, base + cfg.bufSize - 3);
    RangeApart(base, base + cfg.bufSize - 3, n);
    es := Witness(c0, c);
  }

  /** Missing packets lie exactly as far apart as the buffer allows. */
  lemma MissingApartIff(cfg: Config, n: nat)
    requires WellFormed(cfg)
    ensures (exists es: seq<Event> :: Apart(Run(Init(cfg), es).rcv.loss, n))
            <==> n + 3 <= cfg.bufSize && 1 <= cfg.window
  {
    hide Run, Apart;
    if n + 3 <= cfg.bufSize && 1 <= cfg.window {
      var es := OnlyLast(cfg, n);
    } else {
      forall es: seq<Event>
        ensures !Apart(Run(Init(cfg), es).rcv.loss, n)
      {
        Reachable(cfg, es);
        if cfg.window == 0 {
          StaysMute(Init(cfg), es);
        }
        WithinBuffer(Run(Init(cfg), es), n);
      }
    }
  }

  lemma WithinBuffer(c: Conn, n: nat)
    requires Good(c) && (c.cfg.bufSize < n + 3 || (c.cfg.window == 0 && Mute(c)))
    ensures !Apart(c.rcv.loss, n)
  {
    hide Told, NetInv, S.SndInv, Linked, R.Partitioned;
  }

  /** The handshake makes the window the smaller of buffer and flight flag size, and the loss lists
      have twice the window and the flight flag size.  Then two numbers come to share a slot of the
      sender's list in some run exactly if the buffer has more than twice the flight flag size and
      one slot, and of the receiver's list exactly if it has at least three slots more. */
  lemma SlotsSharedIff(cfg: Config, flightFlagSize: nat)
    requires WellFormed(cfg) && 0 < flightFlagSize
    requires cfg.window == if cfg.bufSize < flightFlagSize then cfg.bufSize else flightFlagSize
    ensures (exists es: seq<Event> :: Apart(Run(Init(cfg), es).snd.loss, 2 * cfg.window))
            <==> 2 * flightFlagSize + 1 < cfg.bufSize
    ensures (exists es: seq<Event> :: Apart(Run(Init(cfg), es).rcv.loss, flightFlagSize))
            <==> flightFlagSize + 3 <= cfg.bufSize
  {
    hide Run, Apart;
    ScheduledApartIff(cfg, 2 * cfg.window);
    MissingApartIff(cfg, flightFlagSize);
  }
}
