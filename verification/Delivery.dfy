/** What every run of a connection guarantees. */
module Delivery {
  import opened Stream
  import opened SeqNo
  import opened Connection
  import S = SndModel
  import R = RcvModel
  import opened Rounds
  import Known
  import M = MsgModel

  // ----- Reliable, ordered delivery -----

  /** The bytes the application handed to the sender during a run. */
  function Accepted(es: seq<Event>): Payload {
    if es == [] then []
    else (if es[0].Accept? then es[0].bytes else []) + Accepted(es[1..])
  }

  lemma {:induction false} AcceptedIsQueued(c: Conn, es: seq<Event>)
    requires 0 < c.cfg.mss
    ensures Flatten(Run(c, es).snd.chunks) == Flatten(c.snd.chunks) + Accepted(es)
    decreases |es|
  {
    hide Flatten, Step;
    if es != [] {
      var queued := Flatten(c.snd.chunks);
      var added := if es[0].Accept? then es[0].bytes else [];
      calc {
        Flatten(Run(c, es).snd.chunks);
        Flatten(Run(Step(c, es[0]), es[1..]).snd.chunks);
        { AcceptedIsQueued(Step(c, es[0]), es[1..]); }
        Flatten(Step(c, es[0]).snd.chunks) + Accepted(es[1..]);
        { StepQueues(c, es[0]); }
        (queued + added) + Accepted(es[1..]);
        queued + (added + Accepted(es[1..]));
      }
    }
  }

  lemma StepQueues(c: Conn, e: Event)
    requires 0 < c.cfg.mss
    ensures Flatten(Step(c, e).snd.chunks) == Flatten(c.snd.chunks) + (if e.Accept? then e.bytes else [])
  {
    if e.Accept? {
      FlattenConcat(c.snd.chunks, Chunks(e.bytes, c.cfg.mss, c.snd.nextMsgNo, e.order, true));
      ChunksRestoreData(e.bytes, c.cfg.mss, c.snd.nextMsgNo, e.order, true);
    } else {
      assert Step(c, e).snd.chunks == c.snd.chunks;
    }
  }

  /** Whatever is lost, duplicated or reordered, in stream mode the bytes the application reads
      are a prefix of the bytes the other application sent. */
  lemma PrefixDelivery(cfg: Config, es: seq<Event>)
    requires WellFormed(cfg) && cfg.stream
    ensures Run(Init(cfg), es).rcv.out <= Accepted(es)
  {
    hide Run, Step, Told, NetInv, S.SndInv, R.RcvInv, R.Faithful, Accepted;
    var c := Run(Init(cfg), es);
    Reachable(cfg, es);
    R.FaithfulIsPrefix(c.rcv, c.snd.chunks);
    AcceptedIsQueued(Init(cfg), es);
  }

  /** All transmissions of one packet number carry the same bytes. */
  lemma TransmissionsAgree(cfg: Config, es: seq<Event>, p: S.DataPkt, q: S.DataPkt)
    requires WellFormed(cfg)
    requires p in Run(Init(cfg), es).net.data && q in Run(Init(cfg), es).net.data
    requires p.index == q.index
    ensures p.chunk == q.chunk
  {
    Reachable(cfg, es);
  }

  /** A packet leaves the send buffer only once the receiver stores it or has passed it on. */
  lemma NoEarlyRelease(cfg: Config, es: seq<Event>, k: nat)
    requires WellFormed(cfg)
    requires k < |Run(Init(cfg), es).snd.chunks|
    ensures
      var c := Run(Init(cfg), es);
      var i := c.snd.isn + k;
      || c.snd.lastDataAck <= i
      || (i in c.rcv.buf && c.rcv.buf[i] == c.snd.chunks[k])
      || (i < c.rcv.readPos && (cfg.stream ==> Flatten(c.snd.chunks[..k + 1]) <= c.rcv.out))
  {
    var c := Run(Init(cfg), es);
    Reachable(cfg, es);
    if c.snd.isn + k < c.rcv.readPos {
      PassedOn(c, k);
    }
  }

  lemma PassedOn(c: Conn, k: nat)
    requires R.Faithful(c.rcv, c.snd.chunks) && k < |c.snd.chunks| && c.rcv.isn + k < c.rcv.readPos
    ensures c.rcv.stream ==> Flatten(c.snd.chunks[..k + 1]) <= c.rcv.out
  {
    var done := c.snd.chunks[..c.rcv.readPos - c.rcv.isn];
    FlattenPrefix(done, k + 1);
    assert done[..k + 1] == c.snd.chunks[..k + 1];
  }

  /** Between two endpoints running this code the branches marked "attack or bug" are dead. */
  lemma NeverBroken(cfg: Config, es: seq<Event>)
    requires WellFormed(cfg)
    ensures !Run(Init(cfg), es).snd.broken
  {
    Reachable(cfg, es);
  }

  /** The number that the receiver takes for used has been acted on: the sender has moved its window
      there, and released its chunks unless that very ACK is still waiting for AckLock.  An ACK is
      suppressed for that reason only. */
  lemma SuppressedAckWasUsed(cfg: Config, es: seq<Event>)
    requires WellFormed(cfg)
    ensures
      var c := Run(Init(cfg), es);
      && c.rcv.lastAckAck <= S.AckedTo(c.snd)
      && (c.snd.pendingAck.None? ==> c.rcv.lastAckAck <= c.snd.lastDataAck)
      && (Span(cfg) < TH || R.NextExpected(c.rcv) - c.rcv.lastAckAck < MODULUS ==>
            (R.SendLiteAck(c.rcv).None? <==> R.NextExpected(c.rcv) == c.rcv.lastAckAck == c.snd.lastAck))
  {
    hide Told, Wire, NetInv;
    Reachable(cfg, es);
    var c := Run(Init(cfg), es);
    R.NextExpectedBounds(c.rcv);
    if Span(cfg) < TH {
      Known.NeverLapped(cfg, es);
    }
    if R.NextExpected(c.rcv) - c.rcv.lastAckAck < MODULUS && Wire(R.NextExpected(c.rcv)) == Wire(c.rcv.lastAckAck) {
      WireInjective(R.NextExpected(c.rcv), c.rcv.lastAckAck);
    }
  }

  /** When the timer for a full ACK fires after the repeat interval, the ACK goes out exactly if its
      number is ahead of the number taken for used in the code's eyes: less than the threshold, or,
      once it has wrapped around, at most two further on. */
  lemma FullAckGoesOutIff(cfg: Config, es: seq<Event>)
    requires WellFormed(cfg)
    ensures
      var r := Run(Init(cfg), es).rcv;
      var d := R.NextExpected(r) - r.lastAckAck;
      Span(cfg) < TH || d < MODULUS ==>
        (R.SendFullAck(r, true).1.Some?
         <==> 0 < d && (d < TH || (d <= MODULUS - TH && Wire(R.NextExpected(r)) < Wire(r.lastAckAck))))
  {
    hide Told, Wire, Newer, NetInv, R.SendFullAck, R.RcvOrdered;
    Reachable(cfg, es);
    if Span(cfg) < TH {
      Known.NeverLapped(cfg, es);
    }
    FullAckIff(Run(Init(cfg), es).rcv);
  }

  lemma FullAckIff(r: R.Rcv)
    requires R.RcvOrdered(r)
    ensures
      var d := R.NextExpected(r) - r.lastAckAck;
      d < MODULUS ==>
        (R.SendFullAck(r, true).1.Some?
         <==> 0 < d && (d < TH || (d <= MODULUS - TH && Wire(R.NextExpected(r)) < Wire(r.lastAckAck))))
  {
    hide Wire, Newer, R.NextExpected;
    R.NextExpectedBounds(r);
    var d := R.NextExpected(r) - r.lastAckAck;
    if 0 < d < MODULUS {
      NewerIff(r.lastAckAck, d);
      if Wire(r.lastAckAck + d) == Wire(r.lastAckAck) {
        WireInjective(r.lastAckAck + d, r.lastAckAck);
      }
    }
  }

  /** The receiver knows of an ACK whose chunks the sender has not yet released. */
  predicate Overtaken(c: Conn) {
    c.rcv.lastAckAck > c.snd.lastDataAck
  }

  /** An ACK2 that makes the receiver take a number for used that is not yet released. */
  predicate Overtakes(c: Conn, e: Event) {
    && e.DeliverAck2? && e.no in c.net.ack2s && e.rttPositive
    && var k := R.Lookup(c.rcv.history, e.no);
       && k < |c.rcv.history|
       && c.rcv.history[k].ack > c.snd.lastDataAck && Newer(c.rcv.history[k].ack, c.rcv.lastAckAck)
  }

  /** Only such an ACK2 gets there. */
  lemma OvertakenIff(c: Conn, e: Event)
    requires Good(c) && !Overtaken(c)
    ensures Overtaken(Step(c, e)) <==> Overtakes(c, e)
  {
    hide Good, Wire, Newer, R.NextExpected, M.ReadMsg, R.ReadBytes;
    match e
    case CommitAck => CommitReleases(c);
    case ReadMsg(room) => M.ReadMsgFrame(c.rcv, room);
    case _ =>
  }

  lemma CommitReleases(c: Conn)
    ensures S.CommitAck(c.snd).lastDataAck >= c.snd.lastDataAck
  {
  }

  /** The ACK2 goes out before AckLock is taken.  So this happens in some run, unless the sizes let
      nothing through at all. */
  lemma Ack2OvertakesIff(cfg: Config)
    requires WellFormed(cfg)
    ensures (exists es: seq<Event> :: Overtaken(Run(Init(cfg), es))) <==> 2 <= cfg.bufSize && 1 <= cfg.window
  {
    if 2 <= cfg.bufSize && 1 <= cfg.window {
      var es := Ack2Overtakes(cfg);
    } else {
      forall es: seq<Event>
        ensures !Overtaken(Run(Init(cfg), es))
      {
        StaysMute(Init(cfg), es);
      }
    }
  }

  lemma Ack2Overtakes(cfg: Config) returns (es: seq<Event>)
    requires WellFormed(cfg) && 2 <= cfg.bufSize && 1 <= cfg.window
    ensures Overtaken(Run(Init(cfg), es))
  {
    hide Good, Reaches, Run, Step, R.Lookup, R.Recorded;
    var c0 := Init(cfg);
    Stay(c0);
    Begin(cfg);
    var c := SendOne(c0, c0, 0, 0, 0, 0);
    var a;
    c, a := Acknowledged(c0, c);
    c := Waiting(c0, c, a, true);
    c := Confirmed(c0, c, a);
    es := Witness(c0, c);
  }

  // ----- The receiver's bookkeeping -----

  /** Every packet number from the last ACK on is in exactly one of the loss list and the buffer;
      a new gap lies above all recorded losses, and a packet that fills a gap is in the loss list. */
  lemma LossListIsExactlyTheGaps(cfg: Config, es: seq<Event>, i: int)
    requires WellFormed(cfg)
    ensures
      var r := Run(Init(cfg), es).rcv;
      && (r.lastAck <= i <= r.curr ==> ((i in r.loss) != (i in r.buf)))
      && (r.curr < i ==> i !in r.loss && i !in r.buf)
      && (i in r.loss ==> i < r.curr)
      && (R.Accepts(r, i) && i <= r.curr ==> i in r.loss)
  {
    Reachable(cfg, es);
  }

  /** Live packet numbers at the receiver fit the buffer's slots, and missing ones the loss list's. */
  lemma ReceiverSpan(cfg: Config, es: seq<Event>, i: int, j: int)
    requires WellFormed(cfg)
    ensures
      var r := Run(Init(cfg), es).rcv;
      (i in r.buf || i in r.loss) && (j in r.buf || j in r.loss) ==> i - j < cfg.bufSize - 1 && j - i < cfg.bufSize - 1
  {
    Reachable(cfg, es);
  }

  // ----- The sender's window -----

  /** The three acknowledgement marks stay in order, and the scheduled retransmissions never span
      more than `Span(cfg)`, lite ACKs and reordering included.  Nor do the unreleased packets,
      except while an ACK waits for AckLock: then they span at most twice as much. */
  lemma SenderSpan(cfg: Config, es: seq<Event>, i: int, j: int)
    requires WellFormed(cfg)
    ensures
      var s := Run(Init(cfg), es).snd;
      && s.lastDataAck <= s.lastAck <= s.curr + 1
      && s.curr + 1 - s.lastDataAck <= (if s.pendingAck.None? then Span(cfg) else 2 * Span(cfg))
      && (i in s.loss && j in s.loss ==> i - j < Span(cfg) && j - i < Span(cfg))
  {
    Reachable(cfg, es);
  }
}
