/** What one step does, said without the functions that the step is made of: in every state that
    satisfies the invariant, and so in every state that a run can reach. */
module Steps {
  import opened Stream
  import opened IntSets
  import opened SeqNo
  import opened Connection
  import Known
  import S = SndModel
  import R = RcvModel
  import M = MsgModel

  // ----- Sending -----

  /** A new packet goes out exactly if both windows have room for it and it has been accepted. */
  lemma SendsNewIff(c: Conn, cwnd: nat)
    requires Good(c)
    ensures
      var s, c' := c.snd, Step(c, SendNew(cwnd));
      var unacked := s.curr + 2 - s.lastAck;
      var next := s.curr + 1 - s.isn;
      if s.popped.None? && unacked <= cwnd && unacked <= s.flow && next < |s.chunks| then
        && c' == c.(snd := s.(curr := s.curr + 1), net := c.net.(data := c'.net.data))
        && c'.net.data == c.net.data + {S.DataPkt(s.curr + 1, s.chunks[next])}
      else c' == c
  {
    hide Told, NetInv, R.RcvInv, Linked, S.Windowed;
  }

  predicate Cautious(es: seq<Event>, w: nat) {
    forall e <- es :: e.SendNew? ==> e.cwnd <= w
  }

  lemma StepWithinCwnd(c: Conn, e: Event, w: nat)
    requires Good(c) && c.snd.curr + 1 - c.snd.lastAck <= w && (e.SendNew? ==> e.cwnd <= w)
    ensures Step(c, e).snd.curr + 1 - Step(c, e).snd.lastAck <= w
  {
    hide Told, NetInv, R.RcvInv, Linked, S.Windowed, M.ReadMsg, R.OnData, R.SendFullAck, R.OnAck2, R.Read;
    if e.SendNew? {
      SendsNewIff(c, e.cwnd);
    }
  }

  lemma {:induction false} RunWithinCwnd(c: Conn, es: seq<Event>, w: nat)
    requires 0 < c.cfg.mss && Good(c) && c.snd.curr + 1 - c.snd.lastAck <= w && Cautious(es, w)
    ensures Run(c, es).snd.curr + 1 - Run(c, es).snd.lastAck <= w
    decreases |es|
  {
    hide Good, Step;
    if es != [] {
      assert es[0] in es;
      StepWithinCwnd(c, es[0], w);
      StepGood(c, es[0]);
      RunWithinCwnd(Step(c, es[0]), es[1..], w);
    }
  }

  /** The congestion window bounds what is in flight: with windows of at most `w` there are never
      more than `w` packets unacknowledged. */
  lemma CwndBoundsFlight(cfg: Config, es: seq<Event>, w: nat)
    requires WellFormed(cfg) && Cautious(es, w)
    ensures Run(Init(cfg), es).snd.curr + 1 - Run(Init(cfg), es).snd.lastAck <= w
  {
    hide Good, Step, Run;
    InitGood(cfg);
    RunWithinCwnd(Init(cfg), es, w);
  }

  /** The smallest lost number is taken off the list, unless one is in hand. */
  lemma PopsSmallest(c: Conn)
    requires Good(c)
    ensures
      var s, c' := c.snd, Step(c, PopLost);
      if s.popped.None? && s.loss != {} then
        && c'.snd.popped.Some?
        && var m := c'.snd.popped.value;
           && m in s.loss && (forall x <- s.loss :: m <= x)
           && c' == c.(snd := s.(popped := Some(m), loss := s.loss - {m}))
      else c' == c
  {
    hide Good;
  }

  /** A number in hand is sent again exactly if it has not been released meanwhile. */
  lemma ResendsIff(c: Conn)
    requires Good(c)
    ensures
      var s, c' := c.snd, Step(c, Retransmit);
      if s.popped.None? then c' == c
      else
        var i := s.popped.value;
        && c' == c.(snd := s.(popped := None), net := c.net.(data := c'.net.data))
        && 0 <= i - s.isn < |s.chunks|
        && c'.net.data == if i < s.lastDataAck then c.net.data else c.net.data + {S.DataPkt(i, s.chunks[i - s.isn])}
  {
    hide Told, NetInv, R.RcvInv, Linked, S.Windowed;
  }

  /** The EXP timer schedules everything unacknowledged if nothing is scheduled. */
  lemma ExpSchedules(c: Conn)
    requires Good(c) && c.snd.pendingAck.None?
    ensures
      var s, c' := c.snd, Step(c, ExpTimer);
      && c' == c.(snd := s.(loss := c'.snd.loss))
      && forall i :: i in c'.snd.loss <==> i in s.loss || (s.loss == {} && s.lastAck <= i <= s.curr)
  {
    hide Told, NetInv, R.RcvInv, Linked, S.Windowed;
  }

  // ----- Acknowledgements arriving -----

  /** A lite ACK moves the window start up to its number; the end of the window stays. */
  lemma LiteAckTaken(c: Conn, a: R.Ack, reply: bool)
    requires Good(c) && a in c.net.acks && a.LiteAck? && c.snd.pendingAck.None?
    ensures
      var s, c' := c.snd, Step(c, DeliverAck(a, reply));
      && c' == c.(snd := s.(lastAck := c'.snd.lastAck, flow := c'.snd.flow))
      && c'.snd.lastAck == S.Max(s.lastAck, a.ack)
      && c'.snd.lastAck + c'.snd.flow == s.lastAck + s.flow
  {
    hide Good;
  }

  lemma StartNeverFalls(c: Conn, e: Event)
    requires Good(c)
    ensures c.snd.lastAck <= Step(c, e).snd.lastAck
  {
    hide Told, NetInv, R.RcvInv, Linked, S.Windowed, M.ReadMsg, R.OnData, R.SendFullAck, R.OnAck2, R.Read;
  }

  lemma {:induction false} RunNeverFalls(c: Conn, es: seq<Event>)
    requires 0 < c.cfg.mss && Good(c)
    ensures c.snd.lastAck <= Run(c, es).snd.lastAck
    decreases |es|
  {
    hide Inv, Told, Step;
    if es != [] {
      StepGood(c, es[0]);
      StartNeverFalls(c, es[0]);
      RunNeverFalls(Step(c, es[0]), es[1..]);
    }
  }

  /** Whatever happens after an ACK was taken in, the window starts no earlier than its number. */
  lemma AckStaysTaken(cfg: Config, es: seq<Event>, a: R.Ack, reply: bool, later: seq<Event>)
    requires WellFormed(cfg)
    requires
      var c := Run(Init(cfg), es);
      a in c.net.acks && c.snd.pendingAck.None?
    ensures a.ack <= Run(Init(cfg), es + [DeliverAck(a, reply)] + later).snd.lastAck
  {
    hide Inv, Told, Step, Run;
    Reachable(cfg, es);
    var c, e := Run(Init(cfg), es), DeliverAck(a, reply);
    if a.LiteAck? {
      LiteAckTaken(c, a, reply);
    } else {
      FullAckTaken(c, a, reply);
    }
    StepGood(c, e);
    RunNeverFalls(Step(c, e), later);
    RunSnoc(Init(cfg), es, e);
    RunConcat(Init(cfg), es + [e], later);
  }

  /** A full ACK moves the window start up to its number and, unless it is behind, sets the window.
      It then waits for AckLock, and is answered if the sender chooses to. */
  lemma FullAckTaken(c: Conn, a: R.Ack, reply: bool)
    requires Good(c) && a in c.net.acks && a.FullAck? && c.snd.pendingAck.None?
    ensures
      var s, c' := c.snd, Step(c, DeliverAck(a, reply));
      && c' == c.(snd := s.(lastAck := c'.snd.lastAck, flow := c'.snd.flow, pendingAck := Some(a.ack)),
                  net := c.net.(ack2s := c'.net.ack2s))
      && c'.snd.lastAck == S.Max(s.lastAck, a.ack)
      && c'.snd.flow == (if s.lastAck <= a.ack then a.avail else s.flow)
      && c'.net.ack2s == c.net.ack2s + (if reply then {a.no} else {})
  {
    hide Told, S.Windowed;
    R.NextExpectedBounds(c.rcv);
    assert c.rcv.ackLog[a.no - 1] in c.rcv.ackLog;
  }

  /** Nothing arrives while an ACK waits for AckLock. */
  lemma BusyWaits(c: Conn, a: R.Ack, reply: bool, nak: R.Nak)
    requires Good(c) && c.snd.pendingAck.Some?
    ensures Step(c, DeliverAck(a, reply)) == Step(c, DeliverNak(nak)) == Step(c, ExpTimer) == c
  {
    hide Good;
  }

  /** The AckLock section releases what the waiting ACK acknowledges, and forgets its losses. */
  lemma ReleasesAcked(c: Conn)
    requires Good(c)
    ensures
      var s, c' := c.snd, Step(c, CommitAck);
      && c' == c.(snd := s.(pendingAck := None, lastDataAck := c'.snd.lastDataAck, loss := c'.snd.loss))
      && c'.snd.lastDataAck == (if s.pendingAck.Some? then S.Max(s.lastDataAck, s.pendingAck.value) else s.lastDataAck)
      && forall i :: i in c'.snd.loss <==> i in s.loss && c'.snd.lastDataAck <= i
  {
    hide Told, NetInv, R.RcvInv, Linked;
    var s, c' := c.snd, Step(c, CommitAck);
    if s.pendingAck.None? || s.pendingAck.value <= s.lastDataAck {
      assert c'.snd == s.(pendingAck := None);
    }
  }

  /** A loss report schedules exactly those of its numbers that are not yet acknowledged. */
  lemma NakTaken(c: Conn, nak: R.Nak)
    requires Good(c) && nak in c.net.naks && c.snd.pendingAck.None?
    ensures
      var s, c' := c.snd, Step(c, DeliverNak(nak));
      && c' == c.(snd := s.(loss := c'.snd.loss))
      && forall i :: i in c'.snd.loss <==> i in s.loss || (nak.lo <= i <= nak.hi && s.lastAck <= i)
  {
    hide Told, S.Windowed, R.Partitioned;
  }

  // ----- At the receiver -----

  /** A packet is stored exactly if it lies between the last ACK and the end of the buffer and is
      not stored yet.  The numbers that it shows to be missing join the loss list, and a report of
      exactly these goes out; a number that has arrived leaves the list. */
  lemma DataTaken(c: Conn, p: S.DataPkt)
    requires Good(c) && p in c.net.data
    ensures
      var r, i, c' := c.rcv, p.index, Step(c, DeliverData(p));
      var r' := c'.rcv;
      if r.lastAck <= i < r.readPos + r.bufSize - 1 && i !in r.buf then
        && c' == c.(rcv := r.(buf := r.buf[i := p.chunk], loss := r'.loss, curr := S.Max(r.curr, i)),
                    net := c.net.(naks := c'.net.naks))
        && (forall x :: x in r'.loss <==> x != i && (x in r.loss || r.curr < x < i))
        && c'.net.naks == c.net.naks + (if r.curr + 1 < i then {R.Nak(r.curr + 1, i - 1)} else {})
      else c' == c
  {
    hide Told, NetInv, S.SndInv, Linked, R.Partitioned;
  }

  /** The smallest number that the receiver misses. */
  ghost predicate FirstMissing(r: R.Rcv, n: int) {
    r.lastAck <= n && n !in r.buf && forall i :: r.readPos <= i < n ==> i in r.buf
  }

  lemma FirstMissingIs(r: R.Rcv, n: int)
    requires R.RcvOrdered(r)
    ensures FirstMissing(r, n) <==> n == R.NextExpected(r)
  {
    hide R.NextExpected, R.Partitioned;
    R.NextExpectedBounds(r);
  }

  /** The code takes `n` for a number ahead of `known`. */
  predicate LooksAhead(n: int, known: int) {
    known < n && (n - known < TH || (n - known <= MODULUS - TH && Wire(n) < Wire(known)))
  }

  /** Numbers that did not wrap a whole turn. */
  predicate Comparable(cfg: Config, n: int, known: int) {
    Span(cfg) < TH || n - known < MODULUS
  }

  /** A lite ACK carries the smallest missing number, and goes out exactly if the sender is not known
      to have acted on it. */
  lemma LiteAckSent(cfg: Config, es: seq<Event>, n: int)
    requires WellFormed(cfg) && FirstMissing(Run(Init(cfg), es).rcv, n)
    requires Comparable(cfg, n, Run(Init(cfg), es).rcv.lastAckAck)
    ensures
      var c := Run(Init(cfg), es);
      var c' := Step(c, LiteAckTimer);
      && c' == c.(net := c.net.(acks := c'.net.acks))
      && c'.net.acks == c.net.acks + (if n == c.rcv.lastAckAck then {} else {R.LiteAck(n)})
  {
    hide Told, NetInv, S.SndInv, Linked, R.NextExpected, R.Partitioned, FirstMissing, Run, Wire;
    Reachable(cfg, es);
    var r := Run(Init(cfg), es).rcv;
    FirstMissingIs(r, n);
    R.NextExpectedBounds(r);
    if Span(cfg) < TH {
      Known.NeverLapped(cfg, es);
    }
    if Wire(n) == Wire(r.lastAckAck) {
      WireInjective(n, r.lastAckAck);
    }
  }

  /** When the timer for a full ACK fires, everything up to the smallest missing number becomes
      readable.  An ACK with that number and the free space, at least 2, goes out and is recorded
      exactly if the number looks ahead of the one known to be used and either has moved on or
      the repeat interval has passed. */
  lemma FullAckSent(cfg: Config, es: seq<Event>, late: bool, n: int)
    requires WellFormed(cfg) && FirstMissing(Run(Init(cfg), es).rcv, n)
    requires Comparable(cfg, n, Run(Init(cfg), es).rcv.lastAckAck)
    ensures
      var c := Run(Init(cfg), es);
      var r, c', no := c.rcv, Step(c, FullAckTimer(late)), |c.rcv.ackLog| + 1;
      var sent := LooksAhead(n, r.lastAckAck) && (r.lastAck < n || late);
      && c' == c.(rcv := r.(lastAck := n, ackLog := c'.rcv.ackLog, history := c'.rcv.history),
                  net := c.net.(acks := c'.net.acks))
      && c'.rcv.ackLog == (if sent then r.ackLog + [n] else r.ackLog)
      && c'.net.acks == c.net.acks + (if sent then {R.FullAck(no, n, S.Max(2, r.readPos + r.bufSize - 1 - n))} else {})
      && (!sent ==> c'.rcv.history == r.history)
      && (sent ==> c'.rcv.history != [] && c'.rcv.history[|c'.rcv.history| - 1] == R.AckRec(no, n))
  {
    hide Told, NetInv, S.SndInv, R.NextExpected, R.Partitioned, FirstMissing, Run, Wire, Newer;
    Reachable(cfg, es);
    var r := Run(Init(cfg), es).rcv;
    FirstMissingIs(r, n);
    R.NextExpectedBounds(r);
    if Span(cfg) < TH {
      Known.NeverLapped(cfg, es);
    }
    LooksAheadIs(n, r.lastAckAck);
  }

  lemma LooksAheadIs(n: int, known: int)
    requires known <= n && n - known < MODULUS
    ensures LooksAhead(n, known) <==> Wire(n) != Wire(known) && Newer(n, known)
    ensures Wire(n) == Wire(known) <==> n == known
  {
    hide Wire, Newer;
    if Wire(n) == Wire(known) {
      WireInjective(n, known);
    }
    if known < n {
      NewerIff(known, n - known);
    }
  }

  /** An ACK2 for a recorded ACK: that record and all older ones go, and with a positive reading its
      number becomes the one known to be used if it looks ahead. */
  lemma Ack2Taken(cfg: Config, es: seq<Event>, rec: R.AckRec, rttPositive: bool)
    requires WellFormed(cfg) && rec in Run(Init(cfg), es).rcv.history && rec.no in Run(Init(cfg), es).net.ack2s
    requires Comparable(cfg, rec.ack, Run(Init(cfg), es).rcv.lastAckAck)
    ensures
      var c := Run(Init(cfg), es);
      var r, c' := c.rcv, Step(c, DeliverAck2(rec.no, rttPositive));
      && c' == c.(rcv := r.(history := c'.rcv.history, lastAckAck := c'.rcv.lastAckAck))
      && (forall x :: x in c'.rcv.history <==> x in r.history && rec.no < x.no)
      && c'.rcv.lastAckAck == (if rttPositive && LooksAhead(rec.ack, r.lastAckAck) then rec.ack else r.lastAckAck)
  {
    hide Run, Told, NetInv, S.SndInv, Linked, R.RcvOrdered, LooksAhead, Wire, Newer;
    Reachable(cfg, es);
    var r := Run(Init(cfg), es).rcv;
    var k := R.Lookup(r.history, rec.no);
    assert r.history[k] == rec;
    Known.RecordsInReach(cfg, es, k);
    LooksAheadIs(rec.ack, r.lastAckAck);
    if Wire(rec.ack) == Wire(r.lastAckAck) {
      CmpAgrees(rec.ack, r.lastAckAck);
    }
  }

  /** Any other ACK2 changes nothing. */
  lemma Ack2Unknown(c: Conn, no: int, rttPositive: bool)
    requires Good(c) && no in c.net.ack2s && forall rec <- c.rcv.history :: rec.no != no
    ensures Step(c, DeliverAck2(no, rttPositive)) == c
  {
    hide Good;
  }

  /** Reading hands out as many bytes as asked for, or all that are acknowledged. */
  lemma ReadTakes(c: Conn, len: nat)
    requires Good(c) && c.cfg.stream
    ensures
      var r, c' := c.rcv, Step(c, Read(len));
      var r' := c'.rcv;
      && c' == c.(rcv := r.(readPos := r'.readPos, notch := r'.notch, buf := r'.buf, out := r'.out))
      && r.out <= r'.out <= Flatten(c.snd.chunks)
      && (|r'.out| == |r.out| + len || (|r'.out| < |r.out| + len && r'.readPos == r.lastAck))
      && (forall i :: i in r'.buf <==> i in r.buf && r'.readPos <= i)
      && (forall i <- r'.buf :: r'.buf[i] == r.buf[i])
  {
    hide Told, NetInv, S.SndInv, R.Partial, R.Partitioned, R.ReadBytes;
    R.ReadBytesSpan(c.rcv.buf, c.rcv.readPos, c.rcv.lastAck, c.rcv.notch, len);
    ReadKeeps(c, len);
    R.FaithfulIsPrefix(Step(c, Read(len)).rcv, c.snd.chunks);
  }

  /** A call hands out at most one message.  What is passed is freed; a message that is not yet
      acknowledged is marked and stays. */
  lemma ReadMsgTakes(c: Conn, room: nat)
    requires Good(c) && !c.cfg.stream
    ensures
      var r, c' := c.rcv, Step(c, ReadMsg(room));
      var r' := c'.rcv;
      && c' == c.(rcv := r.(readPos := r'.readPos, buf := r'.buf, taken := r'.taken, messages := r'.messages))
      && r.readPos <= r'.readPos <= r.lastAck
      && (forall i :: i in r'.buf <==> i in r.buf && r'.readPos <= i)
      && (forall i <- r'.buf :: r'.buf[i] == r.buf[i])
      && if r'.messages == r.messages then forall i :: i in r'.taken <==> i in r.taken && r'.readPos <= i
         else
           && |r'.messages| == |r.messages| + 1 && r.messages <= r'.messages
           && var m := r'.messages[|r.messages|];
              && m.room == room && (m.ahead <==> r.lastAck <= m.hi) && (!m.ahead ==> r'.readPos == m.hi + 1)
              && (forall i :: i in r'.taken
                    <==> (i in r.taken && r'.readPos <= i) || (m.ahead && m.lo <= i <= m.hi))
              && (forall lo, hi :: M.Deliverable(r, c.snd.chunks, lo, hi) ==> m.hi <= hi)
  {
    hide Good, M.MsgInv, M.Search, M.SkipTo, M.Discard, M.Deliver, M.Deliverable, R.RcvOrdered;
    MsgFacts(c);
    var r, chunks := c.rcv, c.snd.chunks;
    var r1, f := M.Hit(r, chunks);
    TakenStored(r, chunks);
    DiscardTakes(r, chunks, M.SkipTo(r, r.readPos));
    if f.Found? {
      TakenStored(r1, chunks);
      AllFresh(r1, chunks, f.lo, f.hi);
      DeliverTakes(r1, f.lo, f.hi, room);
      forall lo, hi | M.Deliverable(r, chunks, lo, hi)
        ensures f.hi <= hi
      {
        M.SameDeliverable(r, chunks);
        M.FreshFromReadPos(r1, chunks, lo, hi);
        M.SearchComplete(r1, chunks, r1.readPos, None, lo, hi);
      }
    }
  }

  /** What is passed over is freed. */
  lemma DiscardTakes(r: R.Rcv, chunks: seq<Chunk>, p: int)
    requires R.RcvOrdered(r) && M.MsgInv(r, chunks) && r.readPos <= p
    ensures
      var r' := M.Discard(r, p);
      && r' == r.(readPos := p, buf := r'.buf, taken := r'.taken)
      && (forall i :: i in r'.buf <==> i in r.buf && p <= i)
      && (forall i <- r'.buf :: r'.buf[i] == r.buf[i])
      && (forall i :: i in r'.taken <==> i in r.taken && p <= i)
  {
    hide M.MsgInv, R.Partitioned;
    TakenStored(r, chunks);
  }

  /** An acknowledged message is freed; another one is marked. */
  lemma DeliverTakes(r: R.Rcv, lo: int, hi: int, room: nat)
    requires R.RcvOrdered(r) && r.readPos <= lo <= hi && (hi < r.lastAck ==> lo == r.readPos)
    requires forall i | lo <= i <= hi :: i in r.buf && i !in r.taken
    requires forall i <- r.taken :: i in r.buf
    ensures
      var r' := M.Deliver(r, lo, hi, room);
      && r' == r.(readPos := r'.readPos, buf := r'.buf, taken := r'.taken, messages := r'.messages)
      && r'.readPos == (if hi < r.lastAck then hi + 1 else r.readPos)
      && (forall i :: i in r'.buf <==> i in r.buf && r'.readPos <= i)
      && (forall i <- r'.buf :: r'.buf[i] == r.buf[i])
      && (forall i :: i in r'.taken
            <==> (i in r.taken && r'.readPos <= i) || (r.lastAck <= hi && lo <= i <= hi))
      && |r'.messages| == |r.messages| + 1 && r.messages <= r'.messages
      && var m := r'.messages[|r.messages|];
         m.lo == lo && m.hi == hi && m.room == room && (m.ahead <==> r.lastAck <= hi)
  {
    hide M.Gather, M.Take, R.Partitioned;
  }

  lemma TakenStored(r: R.Rcv, chunks: seq<Chunk>)
    requires R.RcvOrdered(r) && M.MsgInv(r, chunks)
    ensures r.readPos <= r.lastAck
    ensures forall i <- r.taken :: i in r.buf
    ensures forall i <- r.buf :: r.readPos <= i
  {
    hide M.History, M.Accounted, R.Holds, M.Between, R.Partitioned;
  }

  lemma MsgFacts(c: Conn)
    requires Good(c) && !c.cfg.stream
    ensures M.MsgInv(c.rcv, c.snd.chunks) && R.RcvOrdered(c.rcv) && c.rcv.lastAck <= c.rcv.isn + |c.snd.chunks|
    ensures c.rcv.notch == 0
  {
    hide NetInv, M.MsgInv, R.Partitioned;
  }

  lemma AllFresh(r: R.Rcv, chunks: seq<Chunk>, lo: int, hi: int)
    requires M.Deliverable(r, chunks, lo, hi)
    ensures r.readPos <= lo <= hi && forall i | lo <= i <= hi :: i in r.buf && i !in r.taken
  {
    forall i | lo <= i <= hi
      ensures i in r.buf && i !in r.taken
    {
      assert M.Fresh(r, i);
    }
  }

  /** Accepting data queues its packets behind all others; no data changes nothing. */
  lemma AcceptQueues(c: Conn, bytes: Payload, order: bool)
    requires Good(c)
    ensures
      var s, c' := c.snd, Step(c, Accept(bytes, order));
      var s' := c'.snd;
      if bytes == [] then c' == c
      else
        && c' == c.(snd := s.(chunks := s'.chunks, calls := s'.calls, nextMsgNo := s'.nextMsgNo))
        && s.chunks <= s'.chunks && Flatten(s'.chunks[|s.chunks|..]) == bytes
        && |s'.chunks| == |s.chunks| + PacketCount(|bytes|, c.cfg.mss)
        && s'.calls == s.calls + [S.Call(|s.chunks|, |s'.chunks| - |s.chunks|, bytes, order, s.nextMsgNo)]
  {
    hide Told, NetInv, R.RcvInv, Linked, S.SndInv, Chunks, PacketCount, Flatten;
    if bytes != [] {
      var s, cut := c.snd, Chunks(bytes, c.cfg.mss, c.snd.nextMsgNo, order, true);
      ChunksRestoreData(bytes, c.cfg.mss, s.nextMsgNo, order, true);
      ChunksCounted(bytes, c.cfg.mss, s.nextMsgNo, order, true);
      assert (s.chunks + cut)[|s.chunks|..] == cut;
    }
  }
}
