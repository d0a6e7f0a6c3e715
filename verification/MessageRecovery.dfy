/** Message mode: which messages a connection can still deliver after everything in flight was lost. */
module MessageRecovery {
  import opened Stream
  import opened MsgField
  import opened SeqNo
  import opened Connection
  import opened Rounds
  import opened Recovery
  import opened Messages
  import S = SndModel
  import R = RcvModel
  import M = MsgModel

  // ----- A message that does not fit the buffer is never read -----

  ghost predicate ShortReads(c: Conn) {
    forall m <- c.rcv.messages :: m.hi - m.lo + 1 <= c.cfg.bufSize - 1
  }

  lemma StepKeepsShort(c: Conn, e: Event)
    requires Good(c) && ShortReads(c)
    ensures ShortReads(Step(c, e))
  {
    hide Told, NetInv, S.SndInv, M.ReadMsg, R.ReadBytes;
    match e
    case ReadMsg(room) =>
      if !c.cfg.stream {
        ReadsShort(c, room);
      }
    case _ =>
  }

  lemma ReadsShort(c: Conn, room: nat)
    requires Good(c) && ShortReads(c) && !c.cfg.stream
    ensures ShortReads(c.(rcv := M.ReadMsg(c.rcv, room)))
  {
    hide NetInv, S.Windowed, M.MsgInv, M.Search, M.SkipTo, M.Gather, M.Take, IsFirst, IsLast, OrderFlag, IsMessage;
    var r1, f := M.Hit(c.rcv, c.snd.chunks);
    if f.Found? && f.lo <= f.hi {
      assert M.Fresh(r1, f.lo) && M.Fresh(r1, f.hi);
    }
  }

  lemma {:induction false} RunKeepsShort(c: Conn, es: seq<Event>)
    requires Good(c) && 0 < c.cfg.mss && ShortReads(c)
    ensures ShortReads(Run(c, es))
    decreases |es|
  {
    hide Inv, Told, Step, ShortReads;
    if es != [] {
      StepGood(c, es[0]);
      StepKeepsShort(c, es[0]);
      RunKeepsShort(Step(c, es[0]), es[1..]);
    }
  }

  // ----- How many packets a message has -----

  ghost predicate Counted(c: Conn)
    requires 0 < c.cfg.mss
  {
    forall j :: 0 <= j < |c.snd.calls| ==> c.snd.calls[j].count == PacketCount(|c.snd.calls[j].bytes|, c.cfg.mss)
  }

  lemma StepCounts(c: Conn, e: Event)
    requires 0 < c.cfg.mss && Counted(c)
    ensures Counted(Step(c, e)) && c.snd.calls <= Step(c, e).snd.calls
  {
    hide Chunks, PacketCount;
    if e.Accept? && e.bytes != [] {
      ChunksCounted(e.bytes, c.cfg.mss, c.snd.nextMsgNo, e.order, true);
    } else {
      assert Step(c, e).snd.calls == c.snd.calls;
    }
  }

  lemma {:induction false} RunCounts(c: Conn, es: seq<Event>)
    requires 0 < c.cfg.mss && Counted(c)
    ensures Counted(Run(c, es)) && c.snd.calls <= Run(c, es).snd.calls
    decreases |es|
  {
    hide Step, Counted;
    if es != [] {
      StepCounts(c, es[0]);
      RunCounts(Step(c, es[0]), es[1..]);
    }
  }

  // ----- Everything sent has been read -----

  /** Some message read in `c'` is the message of call `j`: whole, if it was not read before `c`. */
  ghost predicate ReadBy(c: Conn, c': Conn, j: nat) {
    exists k :: 0 <= k < |c'.rcv.messages| && Answers(c'.snd, c'.rcv.messages[k], j) && WholeSince(c, c', j, k)
  }

  predicate WholeSince(c: Conn, c': Conn, j: nat, k: nat)
    requires j < |c'.snd.calls| && k < |c'.rcv.messages|
  {
    k < |c.rcv.messages| || c'.rcv.messages[k].bytes == c'.snd.calls[j].bytes
  }

  ghost predicate ReadFirst(c: Conn, c': Conn, n: nat) {
    forall j :: 0 <= j < n ==> ReadBy(c, c', j)
  }

  /** Some continuation, with everything in flight lost, reads all that was sent. */
  ghost predicate ReturnsAfter(cfg: Config, es: seq<Event>)
    requires 0 < cfg.mss
  {
    exists more: seq<Event> :: ReadFirst(Run(Init(cfg), es), Run(Blackout(Run(Init(cfg), es)), more), |SentIn(es)|)
  }

  lemma AllPassed(c: Conn)
    requires Good(c) && !c.cfg.stream && Emptied(c) && c.rcv.lastAck == c.snd.isn + |c.snd.chunks|
    ensures c.rcv.readPos == c.rcv.lastAck
  {
    hide NetInv, Framed, IsFirst, IsLast, OrderFlag, M.Uniform, M.Accounted, M.History, R.Partitioned, M.NoEnd;
    if c.rcv.readPos < c.rcv.lastAck {
      LastEnds(c.snd);
      M.NoEndAt(c.rcv, c.rcv.lastAck - 1);
    }
  }

  lemma LastEnds(s: S.Snd)
    requires S.Tiled(s) && s.chunks != []
    ensures Last(s.chunks[|s.chunks| - 1])
  {
    hide Framed, IsFirst, IsLast, OrderFlag, Flatten;
    var j := |s.calls| - 1;
    assert S.Follows(s.calls, |s.chunks|, j);
    assert S.CallStored(s.chunks, s.calls[j]);
  }

  lemma ReadsAll(c: Conn, c': Conn)
    requires Good(c') && !c'.cfg.stream && c'.rcv.readPos == c'.snd.isn + |c'.snd.chunks|
    requires Uncut(c.rcv.messages, c'.rcv.messages, Room(c'))
    ensures ReadFirst(c, c', |c'.snd.calls|)
  {
    hide Good, Answers, WholeSince, S.CallStored, Uncut;
    forall j | 0 <= j < |c'.snd.calls|
      ensures ReadBy(c, c', j)
    {
      CallWithin(c', j);
      var k := PassedIsReturned(c', j);
      WholeRead(c, c', j, k);
    }
  }

  lemma CallWithin(c: Conn, j: nat)
    requires Good(c) && j < |c.snd.calls|
    ensures c.snd.calls[j].start + c.snd.calls[j].count <= |c.snd.chunks|
  {
    hide Inv, M.MsgInv;
    assert S.CallStored(c.snd.chunks, c.snd.calls[j]);
  }

  lemma WholeRead(c: Conn, c': Conn, j: nat, k: nat)
    requires Good(c') && !c'.cfg.stream && k < |c'.rcv.messages| && Answers(c'.snd, c'.rcv.messages[k], j)
    requires Uncut(c.rcv.messages, c'.rcv.messages, Room(c'))
    ensures WholeSince(c, c', j, k)
  {
    hide NetInv, S.SndInv, R.RcvInv, M.Uniform, M.Accounted, Framed, IsFirst, IsLast, OrderFlag, Flatten, IsMessage,
      S.Contiguous;
    var chunks, m, call := c'.snd.chunks, c'.rcv.messages[k], c'.snd.calls[j];
    assert M.Returned(m, c'.rcv.isn, chunks) && S.CallStored(chunks, call);
    PartSmaller(chunks, call.start, call.start + call.count);
  }

  lemma PartSmaller(chunks: seq<Chunk>, a: nat, b: nat)
    requires a <= b <= |chunks|
    ensures |Flatten(chunks[a..b])| <= |Flatten(chunks)|
  {
    hide Flatten;
    FlattenConcat(chunks[..a], chunks[a..b]);
    FlattenConcat(chunks[..b], chunks[b..]);
    assert chunks[..a] + chunks[a..b] == chunks[..b];
    assert chunks[..b] + chunks[b..] == chunks;
  }

  /** Every message fits the receive buffer, and something may be sent at all. */
  predicate Deliverable(cfg: Config, sent: seq<Sent>)
    requires 0 < cfg.mss
  {
    && (sent == [] || 1 <= cfg.window)
    && forall m <- sent :: PacketCount(|m.bytes|, cfg.mss) <= cfg.bufSize - 1
  }

  lemma {:induction false} SentHaveBytes(es: seq<Event>)
    ensures forall m <- SentIn(es) :: m.bytes != []
  {
    if es != [] {
      SentHaveBytes(es[1..]);
    }
  }

  /** The calls of a run, with the packets of each. */
  lemma CallsAre(cfg: Config, es: seq<Event>)
    requires WellFormed(cfg)
    ensures
      var calls, sent := Run(Init(cfg), es).snd.calls, SentIn(es);
      && |calls| == |sent|
      && forall j :: 0 <= j < |calls| ==> calls[j].count == PacketCount(|sent[j].bytes|, cfg.mss)
  {
    hide Step, Run, PacketCount;
    CallsAreSent(Init(cfg), es);
    RunCounts(Init(cfg), es);
    var calls := Run(Init(cfg), es).snd.calls;
    assert SentOf(Init(cfg).snd.calls) == [];
    assert forall j :: 0 <= j < |calls| ==> SentOf(calls)[j].bytes == calls[j].bytes;
  }

  lemma AtLeastOne(len: nat, mss: nat)
    requires 0 < len && 0 < mss
    ensures 1 <= PacketCount(len, mss)
  {
  }

  lemma FitsAll(cfg: Config, es: seq<Event>, c: Conn)
    requires WellFormed(cfg) && Deliverable(cfg, SentIn(es)) && c.cfg == cfg
        && c.snd.calls == Run(Init(cfg), es).snd.calls
    ensures Fitting(c)
  {
    hide Step, Run, PacketCount;
    CallsAre(cfg, es);
    forall j | 0 <= j < |c.snd.calls|
      ensures c.snd.calls[j].count <= cfg.bufSize - 1
    {
      assert SentIn(es)[j] in SentIn(es);
    }
  }

  lemma CanReturn(cfg: Config, es: seq<Event>)
    requires WellFormed(cfg) && !cfg.stream && Span(cfg) < TH
    requires Tracked(Run(Init(cfg), es)) && Deliverable(cfg, SentIn(es))
    ensures ReturnsAfter(cfg, es)
  {
    hide Run, Step, Good, ReadFirst, PacketCount, Reaches, Uncut;
    var c := Run(Init(cfg), es);
    var dark := Blackout(c);
    CallsAre(cfg, es);
    if SentIn(es) == [] {
      NothingSent(c, Run(dark, []));
    } else {
      SentHaveBytes(es);
      assert SentIn(es)[0] in SentIn(es);
      AtLeastOne(|SentIn(es)[0].bytes|, cfg.mss);
      Reachable(cfg, es);
      InitGood(cfg);
      RunKeepsOpen(Init(cfg), es);
      DarkIsGood(c);
      var c1 := Settle(dark);
      FitsAll(cfg, es, c1);
      var c2 := DeliverAll(c1);
      Then(dark, c1, c2);
      AllPassed(c2);
      ReadsAll(c, c2);
      var more := Witness(dark, c2);
      assert ReadFirst(c, Run(dark, more), |SentIn(es)|);
    }
  }

  lemma NothingSent(c: Conn, c': Conn)
    ensures ReadFirst(c, c', 0)
  {
  }

  lemma OnlyIfFitting(cfg: Config, es: seq<Event>, more: seq<Event>)
    requires WellFormed(cfg) && !cfg.stream
    requires ReadFirst(Run(Init(cfg), es), Run(Blackout(Run(Init(cfg), es)), more), |SentIn(es)|)
    ensures Deliverable(cfg, SentIn(es))
  {
    hide Run, Step, Good, PacketCount, Counted, ShortReads, Mute;
    var c := Run(Init(cfg), es);
    var dark := Blackout(c);
    var c' := Run(dark, more);
    Reachable(cfg, es);
    DarkIsGood(c);
    InitGood(cfg);
    CallsAre(cfg, es);
    StartsShort(cfg);
    RunCounts(Init(cfg), es);
    RunKeepsShort(Init(cfg), es);
    DarkShort(c);
    RunCounts(dark, more);
    RunKeepsShort(dark, more);
    if cfg.window == 0 {
      StaysMute(Init(cfg), es);
      DarkMute(c);
      StaysMute(dark, more);
      NothingRead(c, c', |SentIn(es)|);
    }
    forall j | 0 <= j < |SentIn(es)|
      ensures PacketCount(|SentIn(es)[j].bytes|, cfg.mss) <= cfg.bufSize - 1
    {
      assert ReadBy(c, c', j);
      FitsBuffer(c, c', j);
      assert c'.snd.calls[j] == c.snd.calls[j];
    }
  }

  lemma StartsShort(cfg: Config)
    requires WellFormed(cfg)
    ensures ShortReads(Init(cfg)) && Counted(Init(cfg)) && (cfg.window == 0 ==> Mute(Init(cfg)))
  {
  }

  lemma DarkShort(c: Conn)
    requires 0 < c.cfg.mss && ShortReads(c) && Counted(c)
    ensures ShortReads(Blackout(c)) && Counted(Blackout(c))
  {
  }

  lemma DarkCounts(c: Conn)
    requires 0 < c.cfg.mss && Counted(c)
    ensures Counted(Blackout(c))
  {
  }

  lemma DarkMute(c: Conn)
    requires Mute(c)
    ensures Mute(Blackout(c))
  {
  }

  lemma NothingRead(c: Conn, c': Conn, n: nat)
    requires Mute(c') && ReadFirst(c, c', n)
    ensures n == 0
  {
    NeverReadBy(c, c', 0);
  }

  lemma NeverReadBy(c: Conn, c': Conn, j: nat)
    requires Mute(c')
    ensures !ReadBy(c, c', j)
  {
  }

  lemma FitsBuffer(c: Conn, c': Conn, j: nat)
    requires ReadBy(c, c', j) && ShortReads(c')
    ensures j < |c'.snd.calls| && c'.snd.calls[j].count <= c'.cfg.bufSize - 1
  {
  }

  /** After any run that keeps the ACK number comparable, with everything in flight lost, some
      continuation reads every message sent if and only if each has fewer packets than the receive
      buffer has slots and the initial window admits a packet. */
  lemma MessagesRecoverIff(cfg: Config, es: seq<Event>)
    requires WellFormed(cfg) && !cfg.stream && Span(cfg) < TH && Tracked(Run(Init(cfg), es))
    ensures ReturnsAfter(cfg, es) <==> Deliverable(cfg, SentIn(es))
  {
    hide Run, Step, Good, Deliverable, ReadFirst, Tracked;
    if Deliverable(cfg, SentIn(es)) {
      CanReturn(cfg, es);
    }
    if ReturnsAfter(cfg, es) {
      var more :| ReadFirst(Run(Init(cfg), es), Run(Blackout(Run(Init(cfg), es)), more), |SentIn(es)|);
      OnlyIfFitting(cfg, es, more);
    }
  }

  // ----- Without ACK2s -----

  /** A message beyond the end of a window that never moves on has not been read. */
  lemma BeyondUnread(c: Conn, c': Conn, end: int, j: nat)
    requires Stalled(c', end) && !c'.cfg.stream
    requires j < |c'.snd.calls| && c'.snd.isn + c'.snd.calls[j].start == end
    ensures !ReadBy(c, c', j)
  {
    hide NetInv, S.SndInv, M.Uniform, M.History, Framed, S.Tiled, Wire, M.Covered, R.Partitioned, R.Partial;
    forall k | 0 <= k < |c'.rcv.messages|
      ensures !Answers(c'.snd, c'.rcv.messages[k], j)
    {
      NothingThere(c', end, k);
    }
  }

  lemma NothingThere(c: Conn, end: int, k: nat)
    requires Stalled(c, end) && !c.cfg.stream && k < |c.rcv.messages|
    ensures c.rcv.messages[k].lo != end
  {
    hide NetInv, S.SndInv, Framed, S.Tiled, Wire, R.Partitioned, R.Partial, IsFirst, IsLast, OrderFlag, Flatten;
    var m := c.rcv.messages[k];
    assert M.Returned(m, c.rcv.isn, c.snd.chunks);
    assert M.Covered(c.rcv.messages, m.lo);
  }

  /** Calls of one packet each start one behind the other. */
  lemma SinglesAreCalls(c: Conn, i: nat) returns (j: nat)
    requires Good(c) && Singles(c) && i < |c.snd.chunks|
    ensures j < |c.snd.calls| && c.snd.calls[j].start == i
  {
    hide NetInv, R.RcvInv, S.SndInv, M.MsgInv, Framed, S.Contiguous, IsFirst, IsLast, OrderFlag, Flatten;
    j := S.CallOf(c.snd, i);
    OnePacketCall(c, j);
  }

  lemma OnePacketCall(c: Conn, j: nat)
    requires Good(c) && Singles(c) && j < |c.snd.calls|
    ensures c.snd.calls[j].count == 1
  {
    hide NetInv, R.RcvInv, S.SndInv, M.MsgInv, Framed, S.Contiguous, IsFirst, IsLast, OrderFlag, Flatten;
    var call := c.snd.calls[j];
    assert S.CallStored(c.snd.chunks, call);
    assert Last(c.snd.chunks[call.start]);
  }

  /** With no ACK2 for `TH` packets a message of one packet is never read. */
  lemma StallsMessages(cfg: Config) returns (es: seq<Event>)
    requires WellFormed(cfg) && !cfg.stream && Span(cfg) < TH && 2 <= cfg.bufSize && 1 <= cfg.window
    ensures R.NextExpected(Run(Init(cfg), es).rcv) == Run(Init(cfg), es).rcv.lastAckAck + TH
    ensures !ReturnsAfter(cfg, es) && Deliverable(cfg, SentIn(es))
  {
    hide Run, Step, Good, Stalled, Singles, PacketCount, Counted, ReadBy;
    var end;
    es, end := Stalls(cfg);
    var c := Run(Init(cfg), es);
    var dark := Blackout(c);
    Reachable(cfg, es);
    CallsAre(cfg, es);
    StartsShort(cfg);
    RunCounts(Init(cfg), es);
    var j := SinglesAreCalls(c, end - c.snd.isn);
    forall i | 0 <= i < |SentIn(es)|
      ensures PacketCount(|SentIn(es)[i].bytes|, cfg.mss) <= cfg.bufSize - 1
    {
      OnePacketCall(c, i);
    }
    DarkCounts(c);
    forall more: seq<Event>
      ensures !ReadFirst(c, Run(dark, more), |SentIn(es)|)
    {
      StaysStalled(dark, end, more);
      RunCounts(dark, more);
      BeyondUnread(c, Run(dark, more), end, j);
    }
  }

  /** The limit on the lag of ACK2s is exact here as well. */
  lemma MessageLimit(cfg: Config, limit: int)
    requires WellFormed(cfg) && !cfg.stream && Span(cfg) < TH && 2 <= cfg.bufSize && 1 <= cfg.window
    ensures
      (forall es: seq<Event> | R.NextExpected(Run(Init(cfg), es).rcv) < Run(Init(cfg), es).rcv.lastAckAck + limit ::
         ReturnsAfter(cfg, es) <==> Deliverable(cfg, SentIn(es)))
      <==> limit <= TH
  {
    hide Run, ReturnsAfter, Deliverable;
    if limit <= TH {
      forall es: seq<Event> | R.NextExpected(Run(Init(cfg), es).rcv) < Run(Init(cfg), es).rcv.lastAckAck + limit
        ensures ReturnsAfter(cfg, es) <==> Deliverable(cfg, SentIn(es))
      {
        MessagesRecoverIff(cfg, es);
      }
    } else {
      var es := StallsMessages(cfg);
    }
  }
}
