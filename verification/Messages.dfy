/** What message mode guarantees in every run. */
module Messages {
  import opened Stream
  import opened MsgField
  import opened IntSets
  import opened Connection
  import opened Rounds
  import S = SndModel
  import R = RcvModel
  import M = MsgModel

  /** A message handed to sendmsg, and whether it has to be delivered in order. */
  datatype Sent = Sent(bytes: Payload, order: bool)

  function SentIn(es: seq<Event>): seq<Sent> {
    if es == [] then []
    else (if es[0].Accept? && es[0].bytes != [] then [Sent(es[0].bytes, es[0].order)] else []) + SentIn(es[1..])
  }

  function SentOf(calls: seq<S.Call>): seq<Sent> {
    seq(|calls|, j requires 0 <= j < |calls| => Sent(calls[j].bytes, calls[j].order))
  }

  lemma {:induction false} CallsAreSent(c: Conn, es: seq<Event>)
    requires 0 < c.cfg.mss
    ensures SentOf(Run(c, es).snd.calls) == SentOf(c.snd.calls) + SentIn(es)
    decreases |es|
  {
    if es != [] {
      var now := if es[0].Accept? && es[0].bytes != [] then [Sent(es[0].bytes, es[0].order)] else [];
      calc {
        SentOf(Run(c, es).snd.calls);
        SentOf(Run(Step(c, es[0]), es[1..]).snd.calls);
        { CallsAreSent(Step(c, es[0]), es[1..]); }
        SentOf(Step(c, es[0]).snd.calls) + SentIn(es[1..]);
        { StepSends(c, es[0]); }
        (SentOf(c.snd.calls) + now) + SentIn(es[1..]);
        SentOf(c.snd.calls) + (now + SentIn(es[1..]));
      }
    }
  }

  lemma StepSends(c: Conn, e: Event)
    requires 0 < c.cfg.mss
    ensures SentOf(Step(c, e).snd.calls)
            == SentOf(c.snd.calls) + (if e.Accept? && e.bytes != [] then [Sent(e.bytes, e.order)] else [])
  {
    if e.Accept? && e.bytes != [] {
      hide Chunks;
    } else {
      assert Step(c, e).snd.calls == c.snd.calls;
    }
  }

  /** The call that stored the packets of returned message `k`. */
  ghost predicate Answers(s: S.Snd, m: R.Message, j: nat) {
    && j < |s.calls|
    && m.lo - s.isn == s.calls[j].start
    && m.hi - s.isn == s.calls[j].start + s.calls[j].count - 1
  }

  lemma Sender(c: Conn, k: nat) returns (j: nat)
    requires Good(c) && !c.cfg.stream && k < |c.rcv.messages|
    ensures Answers(c.snd, c.rcv.messages[k], j)
    ensures c.rcv.messages[k].bytes == M.Take(c.snd.calls[j].bytes, c.rcv.messages[k].room)
    ensures c.rcv.messages[k].ahead ==> !c.snd.calls[j].order
  {
    hide M.Uniform, M.Accounted, Framed, S.Contiguous, IsFirst, IsLast, OrderFlag, Flatten;
    var m := c.rcv.messages[k];
    assert M.Returned(m, c.rcv.isn, c.snd.chunks);
    j := S.MessageIsCall(c.snd, m.lo - c.snd.isn, m.hi - c.snd.isn);
    assert S.CallStored(c.snd.chunks, c.snd.calls[j]);
  }

  /** Every message read is one message sent, whole unless the user buffer was too small, and one
      read before it was fully acknowledged did not ask for order. */
  lemma ReadIsSent(cfg: Config, es: seq<Event>, k: nat) returns (j: nat)
    requires WellFormed(cfg) && !cfg.stream
    requires k < |Run(Init(cfg), es).rcv.messages|
    ensures
      var c := Run(Init(cfg), es);
      var m := c.rcv.messages[k];
      && Answers(c.snd, m, j) && j < |SentIn(es)|
      && m.bytes == M.Take(SentIn(es)[j].bytes, m.room)
      && (m.ahead ==> !SentIn(es)[j].order)
  {
    hide Good, Step;
    Reachable(cfg, es);
    CallsAreSent(Init(cfg), es);
    var c := Run(Init(cfg), es);
    j := Sender(c, k);
    assert SentOf(c.snd.calls)[j] == Sent(c.snd.calls[j].bytes, c.snd.calls[j].order);
  }

  /** No message is read twice. */
  lemma NoDuplicates(cfg: Config, es: seq<Event>, k1: nat, k2: nat, j: nat)
    requires WellFormed(cfg) && !cfg.stream
    requires k1 < k2 < |Run(Init(cfg), es).rcv.messages|
    ensures
      var c := Run(Init(cfg), es);
      !(Answers(c.snd, c.rcv.messages[k1], j) && Answers(c.snd, c.rcv.messages[k2], j))
  {
    Reachable(cfg, es);
    var c := Run(Init(cfg), es);
    hide Inv, M.Uniform, M.Accounted, Framed, Step, S.Contiguous, S.AllStored;
    assert M.Returned(c.rcv.messages[k1], c.rcv.isn, c.snd.chunks);
  }

  /** No message is thrown away unread: once the reading position has passed its last packet, it was returned. */
  lemma NothingDiscardedUnread(cfg: Config, es: seq<Event>, j: nat) returns (k: nat)
    requires WellFormed(cfg) && !cfg.stream
    requires j < |Run(Init(cfg), es).snd.calls|
    requires
      var c := Run(Init(cfg), es);
      c.snd.isn + c.snd.calls[j].start + c.snd.calls[j].count <= c.rcv.readPos
    ensures
      var c := Run(Init(cfg), es);
      k < |c.rcv.messages| && Answers(c.snd, c.rcv.messages[k], j)
  {
    Reachable(cfg, es);
    k := PassedIsReturned(Run(Init(cfg), es), j);
  }

  lemma PassedIsReturned(c: Conn, j: nat) returns (k: nat)
    requires Good(c) && !c.cfg.stream && j < |c.snd.calls|
    requires c.snd.isn + c.snd.calls[j].start + c.snd.calls[j].count <= c.rcv.readPos
    ensures k < |c.rcv.messages| && Answers(c.snd, c.rcv.messages[k], j)
  {
    hide M.MsgInv, S.Contiguous, IsFirst, IsLast, OrderFlag, Flatten, IsMessage, Framed;
    var call := c.snd.calls[j];
    assert S.CallStored(c.snd.chunks, call);
    var lo := c.snd.isn + call.start;
    k := PassedRange(c.rcv, c.snd.chunks, lo, lo + call.count - 1);
  }

  lemma PassedRange(r: R.Rcv, chunks: seq<Chunk>, lo: int, hi: int) returns (k: nat)
    requires M.MsgInv(r, chunks) && IsMessage(chunks, lo - r.isn, hi - r.isn) && hi < r.readPos
    ensures k < |r.messages| && r.messages[k].lo == lo && r.messages[k].hi == hi
  {
    hide M.MsgInv, Framed;
    MessageBounds(chunks, lo - r.isn, hi - r.isn);
    M.CoveredBefore(r, chunks, lo);
    k :| 0 <= k < |r.messages| && r.messages[k].lo <= lo <= r.messages[k].hi;
    var m := r.messages[k];
    M.ReturnedAt(r, chunks, k);
    SameMessage(chunks, m.lo - r.isn, m.hi - r.isn, lo - r.isn, hi - r.isn);
  }

  lemma MessageBounds(chunks: seq<Chunk>, lo: int, hi: int)
    requires IsMessage(chunks, lo, hi)
    ensures 0 <= lo <= hi
  {
  }

  /** Two whole messages with a packet in common are the same. */
  lemma SameMessage(chunks: seq<Chunk>, lo: int, hi: int, lo': int, hi': int)
    requires Framed(chunks) && IsMessage(chunks, lo, hi) && IsMessage(chunks, lo', hi') && lo <= lo' <= hi
    ensures lo == lo' && hi == hi'
  {
    hide IsFirst, IsLast, OrderFlag;
    assert lo' > 0 ==> (First(chunks[lo']) <==> Last(chunks[lo' - 1]));
  }

  /** A message read in order comes after every message sent before it. */
  lemma EarlierWereRead(cfg: Config, es: seq<Event>, k: nat, i: int)
    requires WellFormed(cfg) && !cfg.stream
    requires k < |Run(Init(cfg), es).rcv.messages|
    ensures
      var r := Run(Init(cfg), es).rcv;
      !r.messages[k].ahead && r.isn <= i < r.messages[k].lo ==> M.Covered(r.messages[..k], i)
  {
    Reachable(cfg, es);
  }

  /** Messages that ask for order are read in the order in which they were sent: whatever is read
      after one of them was sent after it. */
  lemma OrderedMessagesInOrder(cfg: Config, es: seq<Event>, k1: nat, k2: nat, j1: nat, j2: nat)
    requires WellFormed(cfg) && !cfg.stream
    requires k1 < k2 < |Run(Init(cfg), es).rcv.messages|
    requires
      var c := Run(Init(cfg), es);
      Answers(c.snd, c.rcv.messages[k1], j1) && Answers(c.snd, c.rcv.messages[k2], j2)
    ensures j1 < |SentIn(es)| && (SentIn(es)[j1].order ==> j1 < j2)
  {
    hide Good, Step;
    Reachable(cfg, es);
    CallsAreSent(Init(cfg), es);
    var c := Run(Init(cfg), es);
    assert SentOf(c.snd.calls)[j1] == Sent(c.snd.calls[j1].bytes, c.snd.calls[j1].order);
    InOrderAfter(c, k1, k2, j1, j2);
  }

  lemma InOrderAfter(c: Conn, k1: nat, k2: nat, j1: nat, j2: nat)
    requires Good(c) && !c.cfg.stream && k1 < k2 < |c.rcv.messages|
    requires Answers(c.snd, c.rcv.messages[k1], j1) && Answers(c.snd, c.rcv.messages[k2], j2)
    ensures c.snd.calls[j1].order ==> j1 < j2
  {
    hide M.Uniform, M.Accounted, Framed, IsFirst, IsLast, OrderFlag, Flatten, IsMessage;
    var m1, m2 := c.rcv.messages[k1], c.rcv.messages[k2];
    assert M.Returned(m1, c.rcv.isn, c.snd.chunks) && M.Returned(m2, c.rcv.isn, c.snd.chunks);
    assert S.CallStored(c.snd.chunks, c.snd.calls[j1]);
    LaterIsHigher(c.rcv.messages, c.rcv.isn, c.snd.chunks, k1, k2);
    if j2 <= j1 {
      StartsIncrease(c.snd.calls, |c.snd.chunks|, j2, j1);
    }
  }

  lemma LaterIsHigher(ms: seq<R.Message>, isn: int, chunks: seq<Chunk>, k1: nat, k2: nat)
    requires M.History(ms, isn, chunks) && k1 < k2 < |ms|
    ensures !ms[k1].ahead ==> ms[k1].hi < ms[k2].lo
  {
    hide IsFirst, IsLast, OrderFlag, Flatten;
    assert M.Returned(ms[k2], isn, chunks);
    NotReadBefore(ms, isn, chunks, k1, k2);
  }

  lemma NotReadBefore(ms: seq<R.Message>, isn: int, chunks: seq<Chunk>, k1: nat, k2: nat)
    requires M.History(ms, isn, chunks) && k1 < k2 < |ms|
    ensures !M.Covered(ms[..k1], ms[k2].lo)
  {
    hide IsFirst, IsLast, OrderFlag, Flatten;
    assert M.Returned(ms[k2], isn, chunks);
    forall j | 0 <= j < k1
      ensures !(ms[..k1][j].lo <= ms[k2].lo <= ms[..k1][j].hi)
    {
      assert ms[..k1][j] == ms[j];
    }
  }

  lemma {:induction false} StartsIncrease(calls: seq<S.Call>, total: nat, i: nat, j: nat)
    requires S.Contiguous(calls, total) && i <= j < |calls|
    ensures calls[i].start <= calls[j].start
    decreases j - i
  {
    if i < j {
      assert S.Follows(calls, total, i);
      StartsIncrease(calls, total, i + 1, j);
    }
  }

  // ----- Message numbers -----

  /** The number of the message sent as the `j`-th: from 1 up to one below the maximum, and over. */
  function NumberOf(j: nat): int {
    j % 0x1FFF_FFFE + 1
  }

  ghost predicate CarriesNumber(s: S.Snd, j: nat)
    requires j < |s.calls|
  {
    var call := s.calls[j];
    && call.no == NumberOf(j) && call.start + call.count <= |s.chunks|
    && forall k | call.start <= k < call.start + call.count :: MsgSeq(s.chunks[k].msg) == NumberOf(j)
  }

  ghost predicate Numbered(s: S.Snd) {
    && s.nextMsgNo == NumberOf(|s.calls|)
    && forall j :: 0 <= j < |s.calls| ==> CarriesNumber(s, j)
  }

  lemma NextNumber(j: nat, no: MsgNo)
    requires no == NumberOf(j)
    ensures NextMsgNo(no) == NumberOf(j + 1)
  {
  }

  lemma AcceptNumbers(s: S.Snd, data: Payload, mss: nat, order: bool)
    requires Numbered(s) && 0 < mss && data != []
    ensures Numbered(S.AddBuffer(s, data, mss, order))
  {
    hide Chunks, NumberOf, NextMsgNo, MsgSeq;
    var s' := S.AddBuffer(s, data, mss, order);
    var cut := Chunks(data, mss, s.nextMsgNo, order, true);
    NextNumber(|s.calls|, s.nextMsgNo);
    forall j | 0 <= j < |s'.calls|
      ensures CarriesNumber(s', j)
    {
      if j < |s.calls| {
        assert CarriesNumber(s, j);
      } else {
        forall k | |s.chunks| <= k < |s'.chunks|
          ensures MsgSeq(s'.chunks[k].msg) == s.nextMsgNo
        {
          ChunksFramed(data, mss, s.nextMsgNo, order, true, k - |s.chunks|);
        }
      }
    }
  }

  lemma StepNumbers(c: Conn, e: Event)
    requires 0 < c.cfg.mss && Numbered(c.snd)
    ensures Numbered(Step(c, e).snd)
  {
    hide CarriesNumber, NumberOf, Chunks, NextMsgNo;
    if e.Accept? && e.bytes != [] {
      AcceptNumbers(c.snd, e.bytes, c.cfg.mss, e.order);
    } else {
      SameNumbers(c.snd, Step(c, e).snd);
    }
  }

  lemma SameNumbers(s: S.Snd, s': S.Snd)
    requires Numbered(s) && s'.calls == s.calls && s'.chunks == s.chunks && s'.nextMsgNo == s.nextMsgNo
    ensures Numbered(s')
  {
    hide NumberOf;
    forall j | 0 <= j < |s'.calls|
      ensures CarriesNumber(s', j)
    {
      assert CarriesNumber(s, j);
    }
  }

  lemma {:induction false} RunNumbers(c: Conn, es: seq<Event>)
    requires 0 < c.cfg.mss && Numbered(c.snd)
    ensures Numbered(Run(c, es).snd)
    decreases |es|
  {
    hide Step, Numbered;
    if es != [] {
      StepNumbers(c, es[0]);
      RunNumbers(Step(c, es[0]), es[1..]);
    }
  }

  /** In every run the messages are numbered from 1 on in the order in which they were sent, starting
      over after 0x1FFF_FFFE, and every packet of a message carries its number. */
  lemma MessageNumbers(cfg: Config, es: seq<Event>, j: nat, k: nat)
    requires WellFormed(cfg) && j < |Run(Init(cfg), es).snd.calls|
    ensures
      var s := Run(Init(cfg), es).snd;
      && s.calls[j].no == j % 0x1FFF_FFFE + 1
      && s.calls[j].start + s.calls[j].count <= |s.chunks|
      && (s.calls[j].start <= k < s.calls[j].start + s.calls[j].count ==>
            MsgSeq(s.chunks[k].msg) == j % 0x1FFF_FFFE + 1)
  {
    hide Run;
    RunNumbers(Init(cfg), es);
    assert CarriesNumber(Run(Init(cfg), es).snd, j);
  }

  /** Messages closer than that carry different numbers. */
  lemma NumbersDiffer(cfg: Config, es: seq<Event>, i: nat, j: nat)
    requires WellFormed(cfg) && i < j < |Run(Init(cfg), es).snd.calls| && j - i < 0x1FFF_FFFE
    ensures Run(Init(cfg), es).snd.calls[i].no != Run(Init(cfg), es).snd.calls[j].no
  {
    hide Run;
    MessageNumbers(cfg, es, i, 0);
    MessageNumbers(cfg, es, j, 0);
  }

  // ----- What scanMsg reports -----

  lemma {:induction false} NoEndNothingFound(r: R.Rcv, q: int, start: Option<int>)
    requires forall i <- r.buf :: !Last(r.buf[i])
    ensures M.Search(r, q, start).NotFound?
    decreases M.Furthest(r) - q
  {
    if q <= M.Furthest(r) {
      NoEndNothingFound(r, q + 1, if !M.Fresh(r, q) then None else if First(r.buf[q]) then Some(q) else start);
    }
  }

  /** A buffer full of the beginning of a message, of which the first packet is acknowledged. */
  lemma FullIsMisled(r: R.Rcv)
    requires M.Fills(r) && r.lastAck == r.readPos + 1 && forall i <- r.buf :: !Last(r.buf[i])
    ensures M.Misled(r)
  {
    hide IsFirst, IsLast;
    var p := r.readPos;
    assert M.Fresh(r, p) && M.Whole(r, p + 1);
    assert M.Discard(r, p) == r by {
      assert (map i | i in r.buf && !(p <= i < p) :: r.buf[i]) == r.buf;
      assert r.taken - Range(p, p - 1) == r.taken;
    }
    NoEndNothingFound(r, p, None);
  }

  /** A message longer than the receive buffer arrives as far as there is room. */
  lemma TooLong(cfg: Config) returns (es: seq<Event>)
    requires WellFormed(cfg) && 3 <= cfg.bufSize && 1 <= cfg.window
    ensures M.Misled(Run(Init(cfg), es).rcv)
  {
    hide Good, Reaches, Run, M.Misled;
    var c0, n := Init(cfg), cfg.bufSize;
    Stay(c0);
    Begin(cfg);
    var c := AcceptMany(c0, c0, n);
    c := PassOne(c0, c, 0, 0, 0, 0);
    c := AckAll(c0, c, 1, 0, 0, 0, false);
    BufferSize(c);
    c := PassMany(c0, c, 1, n - 1, 1, 0, 0);
    HoldsBeginning(c, n);
    FullIsMisled(c.rcv);
    es := Witness(c0, c);
  }

  lemma HoldsBeginning(c: Conn, n: nat)
    requires At(c, n - 1, 1, 0, 0) && 3 <= n == c.cfg.bufSize && c.rcv.taken == {} && n <= |c.snd.chunks|
    requires forall k | 0 <= k < n :: (First(c.snd.chunks[k]) <==> k == 0) && (Last(c.snd.chunks[k]) <==> k == n - 1)
    ensures M.Fills(c.rcv) && forall i <- c.rcv.buf :: !Last(c.rcv.buf[i])
  {
    hide Told, NetInv, S.SndInv, IsFirst, IsLast;
  }

  /** In some run scanMsg reports a message that readMsg does not hand out, unless the buffer holds
      at most one packet or nothing may be sent at all. */
  lemma ScanMisledIff(cfg: Config)
    requires WellFormed(cfg)
    ensures (exists es: seq<Event> :: M.Misled(Run(Init(cfg), es).rcv)) <==> 3 <= cfg.bufSize && 1 <= cfg.window
  {
    hide M.Misled, Run;
    if 3 <= cfg.bufSize && 1 <= cfg.window {
      var es := TooLong(cfg);
    } else {
      forall es: seq<Event>
        ensures !M.Misled(Run(Init(cfg), es).rcv)
      {
        Reachable(cfg, es);
        NeverMisled(Run(Init(cfg), es));
        if cfg.window == 0 {
          StaysMute(Init(cfg), es);
        }
      }
    }
  }

  lemma NeverMisled(c: Conn)
    requires Good(c)
    ensures M.Misled(c.rcv) ==> 3 <= c.cfg.bufSize && c.rcv.readPos <= c.rcv.curr
  {
    hide Told, NetInv, M.SkipTo, M.Search;
  }
}
