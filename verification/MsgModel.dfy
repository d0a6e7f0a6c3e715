/** Message mode: CRcvBuffer's scanMsg and readMsg over packet indices. */
module MsgModel {
  import opened Stream
  import opened MsgField
  import opened IntSets
  import opened RcvModel

  /** The packet is stored and has not been read. */
  predicate Fresh(r: Rcv, i: int) {
    i in r.buf && i !in r.taken
  }

  /** Nothing in the acknowledged part breaks the message that starts at or before `i`. */
  predicate Whole(r: Rcv, i: int)
    decreases r.lastAck - i
  {
    i >= r.lastAck || (Fresh(r, i) && (Last(r.buf[i]) || Whole(r, i + 1)))
  }

  /** Where skipping "bad" packets at the beginning of the acknowledged part stops. */
  function SkipTo(r: Rcv, p: int): (q: int)
    ensures p <= q && (q <= r.lastAck || q == p)
    decreases r.lastAck - p
  {
    if p >= r.lastAck || (Fresh(r, p) && First(r.buf[p]) && Whole(r, p)) then p else SkipTo(r, p + 1)
  }

  /** Free the packets from the reading position up to `p`. */
  function Discard(r: Rcv, p: int): Rcv {
    r.(readPos := p,
       buf := map i | i in r.buf && !(r.readPos <= i < p) :: r.buf[i],
       taken := r.taken - Range(r.readPos, p - 1))
  }

  datatype Found = NotFound | Found(lo: int, hi: int)

  /** Index of the furthest slot scanMsg looks at: `m_iLastAckPos + m_iMaxPos`. */
  function Furthest(r: Rcv): int {
    if r.curr < r.lastAck then r.lastAck else r.curr
  }

  /** The search loop at slot `q`; `start` is the beginning of a message read so far without a hole. */
  function Search(r: Rcv, q: int, start: Option<int>): Found
    decreases Furthest(r) - q
  {
    if q > Furthest(r) then NotFound
    else if !Fresh(r, q) then Search(r, q + 1, None)
    else
      var start1 := if First(r.buf[q]) then Some(q) else start;
      if Last(r.buf[q]) && start1.Some? && (q < r.lastAck || !InOrder(r.buf[q])) then Found(start1.value, q)
      else Search(r, q + 1, start1)
  }

  function Gather(buf: map<int, Chunk>, lo: int, hi: int): Payload
    decreases hi - lo
  {
    if lo > hi || lo !in buf then [] else buf[lo].bytes + Gather(buf, lo + 1, hi)
  }

  /** As much as there is room for. */
  function Take(data: Payload, room: nat): (r: Payload)
    ensures r <= data && |r| <= room && (|r| == room || r == data)
  {
    if |data| <= room then data else data[..room]
  }

  /** Deliver packets `lo..hi`: free them, or mark them read if not all are acknowledged. */
  function Deliver(r: Rcv, lo: int, hi: int, room: nat): Rcv {
    var m := Message(lo, hi, room, Take(Gather(r.buf, lo, hi), room), hi >= r.lastAck);
    if hi < r.lastAck then
      r.(readPos := hi + 1, buf := map i | i in r.buf && !(lo <= i <= hi) :: r.buf[i], messages := r.messages + [m])
    else
      r.(taken := r.taken + Range(lo, hi), messages := r.messages + [m])
  }

  /** scanMsg without its fallback: what is skipped, and the message found. */
  function Scan(r: Rcv): (Rcv, Found) {
    if r.readPos == r.lastAck && r.curr <= r.lastAck then (r, NotFound)
    else
      var r1 := Discard(r, SkipTo(r, r.readPos));
      (r1, Search(r1, r1.readPos, None))
  }

  function ReadMsg(r: Rcv, room: nat): Rcv {
    var (r1, f) := Scan(r);
    match f
    case NotFound => r1
    case Found(lo, hi) => Deliver(r1, lo, hi, room)
  }

  /** All slots but the spare one hold one message without its end, or one bound to order, that is
      not yet fully acknowledged: scanMsg takes it for larger than the buffer. */
  ghost predicate Fills(r: Rcv) {
    && r.lastAck <= r.curr == r.readPos + r.bufSize - 2 && r.readPos < r.curr
    && forall i | r.readPos <= i <= r.curr :: Fresh(r, i) && (First(r.buf[i]) <==> i == r.readPos)
  }

  /** scanMsg reports a message although readMsg hands out none. */
  ghost predicate Misled(r: Rcv) {
    Scan(r).1.NotFound? && Fills(Scan(r).0)
  }

  /** The bytes that one call hands out. */
  function Handed(r: Rcv, room: nat): Payload {
    var sent := ReadMsg(r, room).messages;
    if |sent| > |r.messages| then sent[|sent| - 1].bytes else []
  }

  // ----- Invariant -----

  /** Packet `i` was part of a returned message. */
  ghost predicate Covered(ms: seq<Message>, i: int) {
    exists j :: 0 <= j < |ms| && ms[j].lo <= i <= ms[j].hi
  }

  /** The sender's chunk at index `i` ends a message. */
  predicate EndsAt(chunks: seq<Chunk>, isn: int, i: int) {
    isn <= i < isn + |chunks| && Last(chunks[i - isn])
  }

  /** No unread message begins before `p` and reaches `p`. */
  ghost predicate Between(r: Rcv, chunks: seq<Chunk>, p: int) {
    p <= r.isn || EndsAt(chunks, r.isn, p - 1) || p in r.taken
  }

  /** Messages are marked read as a whole, and reading never stops inside an unread one. */
  ghost predicate Uniform(r: Rcv, chunks: seq<Chunk>) {
    && (forall i <- r.taken :: i in r.buf)
    && (forall i | r.readPos <= i < r.isn + |chunks| && !EndsAt(chunks, r.isn, i) :: i in r.taken <==> i + 1 in r.taken)
    && Between(r, chunks, r.readPos)
  }

  /** Exactly the packets of returned messages have been passed or marked. */
  ghost predicate Accounted(r: Rcv) {
    forall i :: r.isn <= i ==> (Covered(r.messages, i) <==> i < r.readPos || i in r.taken)
  }

  ghost predicate Returned(m: Message, isn: int, chunks: seq<Chunk>) {
    && IsMessage(chunks, m.lo - isn, m.hi - isn)
    && m.bytes == Take(Flatten(chunks[m.lo - isn..m.hi + 1 - isn]), m.room)
    && (m.ahead ==> !InOrder(chunks[m.hi - isn]))
  }

  /** What has been returned: whole messages, each once, and an acknowledged one only after
      everything before it. */
  ghost predicate History(ms: seq<Message>, isn: int, chunks: seq<Chunk>) {
    && (forall j :: 0 <= j < |ms| ==> Returned(ms[j], isn, chunks))
    && (forall j, k :: 0 <= j < k < |ms| ==> ms[j].hi < ms[k].lo || ms[k].hi < ms[j].lo)
    && (forall j, i :: 0 <= j < |ms| && !ms[j].ahead && isn <= i < ms[j].lo ==> Covered(ms[..j], i))
  }

  ghost predicate MsgInv(r: Rcv, chunks: seq<Chunk>) {
    && Framed(chunks)
    && Holds(r, chunks) && r.isn <= r.readPos <= r.isn + |chunks|
    && Uniform(r, chunks)
    && Accounted(r)
    && History(r.messages, r.isn, chunks)
  }

  // ----- Every receiver step keeps it -----

  lemma DataKeepsMsg(r: Rcv, chunks: seq<Chunk>, i: int)
    requires MsgInv(r, chunks) && r.isn <= i < r.isn + |chunks|
    ensures MsgInv(OnData(r, i, chunks[i - r.isn]).0, chunks)
  {
    hide IsFirst, IsLast, OrderFlag, Framed, History;
  }

  lemma FullAckKeepsMsg(r: Rcv, chunks: seq<Chunk>, late: bool)
    requires MsgInv(r, chunks)
    ensures MsgInv(SendFullAck(r, late).0, chunks)
  {
    hide IsFirst, IsLast, OrderFlag, Framed, History;
  }

  lemma Ack2KeepsMsg(r: Rcv, chunks: seq<Chunk>, no: int, rttPositive: bool)
    requires MsgInv(r, chunks)
    ensures MsgInv(OnAck2(r, no, rttPositive), chunks)
  {
    hide IsFirst, IsLast, OrderFlag, Framed, History;
  }

  /** The sender accepts another message. */
  lemma GrowKeepsMsg(r: Rcv, chunks: seq<Chunk>, more: seq<Chunk>)
    requires MsgInv(r, chunks) && Framed(more)
    ensures MsgInv(r, chunks + more)
  {
    hide IsFirst, IsLast, OrderFlag, History, Accounted, Framed, Uniform;
    FramedConcat(chunks, more);
    GrowUniform(r, chunks, more);
    GrowHistory(r.messages, r.isn, chunks, more);
  }

  lemma GrowUniform(r: Rcv, chunks: seq<Chunk>, more: seq<Chunk>)
    requires Uniform(r, chunks) && Holds(r, chunks) && r.isn <= r.readPos <= r.isn + |chunks|
    ensures Uniform(r, chunks + more)
  {
    hide IsFirst, IsLast, OrderFlag;
    var all := chunks + more;
    forall i | r.isn <= i < r.isn + |chunks|
      ensures EndsAt(all, r.isn, i) <==> EndsAt(chunks, r.isn, i)
    {
      assert all[i - r.isn] == chunks[i - r.isn];
    }
    forall i | r.readPos <= i < r.isn + |all| && !EndsAt(all, r.isn, i)
      ensures i in r.taken <==> i + 1 in r.taken
    {
      assert i < r.isn + |chunks| ==> !EndsAt(chunks, r.isn, i);
    }
  }

  lemma GrowHistory(ms: seq<Message>, isn: int, chunks: seq<Chunk>, more: seq<Chunk>)
    requires History(ms, isn, chunks)
    ensures History(ms, isn, chunks + more)
  {
    hide Covered, Returned;
    forall j | 0 <= j < |ms|
      ensures Returned(ms[j], isn, chunks + more)
    {
      GrowReturned(ms[j], isn, chunks, more);
    }
  }

  lemma GrowReturned(m: Message, isn: int, chunks: seq<Chunk>, more: seq<Chunk>)
    requires Returned(m, isn, chunks)
    ensures Returned(m, isn, chunks + more)
  {
    hide IsFirst, IsLast, OrderFlag;
    var all := chunks + more;
    assert all[m.lo - isn..m.hi + 1 - isn] == chunks[m.lo - isn..m.hi + 1 - isn];
  }

  // ----- Skipping throws nothing unread away -----

  lemma {:induction false} SkipPassesOnlyRead(r: Rcv, chunks: seq<Chunk>, p: int)
    requires RcvOrdered(r) && MsgInv(r, chunks) && r.readPos <= p <= r.lastAck && r.lastAck <= r.isn + |chunks|
    requires Between(r, chunks, p)
    ensures
      var q := SkipTo(r, p);
      && p <= q <= r.lastAck
      && (forall i | p <= i < q :: i in r.taken)
      && Between(r, chunks, q)
      && (q < r.lastAck ==> Fresh(r, q) && First(r.buf[q]))
    decreases r.lastAck - p
  {
    hide IsFirst, IsLast, OrderFlag, History, Accounted;
    if p < r.lastAck {
      assert p in r.buf;
      if p in r.taken {
        SkipPassesOnlyRead(r, chunks, p + 1);
      } else {
        UnreadIsWhole(r, chunks, p);
      }
    }
  }

  lemma {:induction false} UnreadIsWhole(r: Rcv, chunks: seq<Chunk>, i: int)
    requires RcvOrdered(r) && MsgInv(r, chunks) && r.readPos <= i && r.lastAck <= r.isn + |chunks|
    requires i < r.lastAck ==> i !in r.taken
    ensures Whole(r, i)
    decreases r.lastAck - i
  {
    hide IsFirst, IsLast, OrderFlag, History, Accounted;
    if i < r.lastAck {
      assert i in r.buf;
      if !Last(r.buf[i]) {
        assert !EndsAt(chunks, r.isn, i);
        UnreadIsWhole(r, chunks, i + 1);
      }
    }
  }

  lemma DiscardKeeps(r: Rcv, chunks: seq<Chunk>, p: int)
    requires RcvOrdered(r) && MsgInv(r, chunks) && r.notch == 0
    requires r.readPos <= p <= r.lastAck && p <= r.isn + |chunks| && Between(r, chunks, p)
    requires forall i | r.readPos <= i < p :: i in r.taken
    ensures RcvOrdered(Discard(r, p)) && MsgInv(Discard(r, p), chunks)
    ensures Discard(r, p).loss == r.loss
  {
    hide IsFirst, IsLast, OrderFlag, History, Framed, Uniform, Accounted;
    DiscardUniform(r, chunks, p);
    DiscardAccounted(r, p);
  }

  lemma DiscardUniform(r: Rcv, chunks: seq<Chunk>, p: int)
    requires Uniform(r, chunks) && r.readPos <= p && Between(r, chunks, p)
    ensures Uniform(Discard(r, p), chunks)
  {
    hide IsFirst, IsLast, OrderFlag;
    var r' := Discard(r, p);
    forall i | r'.readPos <= i < r.isn + |chunks| && !EndsAt(chunks, r.isn, i)
      ensures i in r'.taken <==> i + 1 in r'.taken
    {
      assert i in r.taken <==> i + 1 in r.taken;
    }
  }

  lemma DiscardAccounted(r: Rcv, p: int)
    requires Accounted(r) && r.readPos <= p && forall i | r.readPos <= i < p :: i in r.taken
    ensures Accounted(Discard(r, p))
  {
    hide Covered;
  }

  // ----- What the search finds -----

  /** A complete unread message that may be handed out. */
  ghost predicate Deliverable(r: Rcv, chunks: seq<Chunk>, lo: int, hi: int) {
    && IsMessage(chunks, lo - r.isn, hi - r.isn)
    && r.readPos <= lo
    && (forall i | lo <= i <= hi :: Fresh(r, i))
    && (hi < r.lastAck || !InOrder(chunks[hi - r.isn]))
  }

  /** Packets `p..q` were read without a hole from the beginning `p` of a message; only packet
      `q - 1` may end one. */
  ghost predicate Open(r: Rcv, chunks: seq<Chunk>, q: int, start: Option<int>) {
    start.Some? ==>
      var p := start.value;
      && r.readPos <= p < q && q - 1 <= Furthest(r)
      && Fresh(r, p) && First(r.buf[p])
      && (forall i | p <= i < q :: Fresh(r, i) && (i < q - 1 ==> !Last(r.buf[i])))
  }

  lemma {:induction false} SearchSound(r: Rcv, chunks: seq<Chunk>, q: int, start: Option<int>)
    requires RcvOrdered(r) && MsgInv(r, chunks) && r.readPos <= q && Open(r, chunks, q, start)
    ensures
      var f := Search(r, q, start);
      f.Found? ==> Deliverable(r, chunks, f.lo, f.hi)
    decreases Furthest(r) - q
  {
    hide IsFirst, IsLast, OrderFlag, History, Accounted, Uniform, Deliverable, MsgInv, RcvOrdered;
    if q <= Furthest(r) {
      if !Fresh(r, q) {
        SearchSound(r, chunks, q + 1, None);
      } else {
        var start1 := if First(r.buf[q]) then Some(q) else start;
        OpenNext(r, chunks, q, start);
        if Last(r.buf[q]) && start1.Some? && (q < r.lastAck || !InOrder(r.buf[q])) {
          OpenIsDeliverable(r, chunks, q, start1.value);
        } else {
          SearchSound(r, chunks, q + 1, start1);
        }
      }
    }
  }

  /** A message read without a hole up to its end. */
  lemma OpenIsDeliverable(r: Rcv, chunks: seq<Chunk>, q: int, lo: int)
    requires MsgInv(r, chunks) && Open(r, chunks, q + 1, Some(lo))
    requires Fresh(r, q) && Last(r.buf[q]) && (q < r.lastAck || !InOrder(r.buf[q]))
    ensures Deliverable(r, chunks, lo, q)
  {
    hide IsFirst, IsLast, OrderFlag, History, Accounted, Uniform, Framed;
    forall k | lo - r.isn <= k < q - r.isn
      ensures !Last(chunks[k])
    {
      assert Fresh(r, k + r.isn);
    }
    assert Fresh(r, lo);
  }

  /** Another fresh packet: if the previous one ended a message, this one begins the next. */
  lemma OpenNext(r: Rcv, chunks: seq<Chunk>, q: int, start: Option<int>)
    requires MsgInv(r, chunks) && r.readPos <= q <= Furthest(r) && Open(r, chunks, q, start) && Fresh(r, q)
    ensures
      var start1 := if First(r.buf[q]) then Some(q) else start;
      && Open(r, chunks, q + 1, start1)
  {
    hide IsFirst, IsLast, OrderFlag, History, Accounted, Uniform;
    if !First(r.buf[q]) && start.Some? {
      assert Fresh(r, q - 1);
      assert !Last(chunks[q - 1 - r.isn]);
    }
  }

  /** A deliverable message is found, or another one that ends earlier. */
  lemma {:induction false} SearchComplete(r: Rcv, chunks: seq<Chunk>, q: int, start: Option<int>, lo: int, hi: int)
    requires RcvOrdered(r) && MsgInv(r, chunks) && Deliverable(r, chunks, lo, hi)
    requires q <= hi && (lo < q ==> start == Some(lo))
    ensures Search(r, q, start).Found? && Search(r, q, start).hi <= hi
    decreases hi - q
  {
    hide IsFirst, IsLast, OrderFlag, History, Accounted, Uniform;
    assert Fresh(r, hi);
    if q >= lo {
      assert Fresh(r, q);
      assert chunks[q - r.isn] == r.buf[q];
      if q > lo {
        assert Fresh(r, q - 1) && !Last(chunks[q - 1 - r.isn]);
      }
    }
    if q < hi {
      if !Fresh(r, q) {
        SearchComplete(r, chunks, q + 1, None, lo, hi);
      } else {
        var start1 := if First(r.buf[q]) then Some(q) else start;
        if !(Last(r.buf[q]) && start1.Some? && (q < r.lastAck || !InOrder(r.buf[q]))) {
          SearchComplete(r, chunks, q + 1, start1, lo, hi);
        }
      }
    }
  }

  /** After skipping, a fully acknowledged message can only be the very next one. */
  lemma {:induction false} AckedIsNext(r: Rcv, chunks: seq<Chunk>, q: int, start: Option<int>)
    requires RcvOrdered(r) && MsgInv(r, chunks) && r.readPos <= q <= r.lastAck <= r.isn + |chunks|
    requires r.readPos < r.lastAck ==> Fresh(r, r.readPos) && First(r.buf[r.readPos])
    requires q == r.readPos || start == Some(r.readPos)
    requires forall i | r.readPos <= i < q :: Fresh(r, i) && !Last(r.buf[i])
    ensures
      var f := Search(r, q, start);
      f.Found? && f.hi < r.lastAck ==> f.lo == r.readPos
    decreases r.lastAck - q
  {
    hide IsFirst, IsLast, OrderFlag, History, Accounted;
    if q < r.lastAck {
      assert q in r.buf && chunks[q - r.isn] == r.buf[q];
      if q > r.readPos {
        assert Fresh(r, q - 1) && chunks[q - 1 - r.isn] == r.buf[q - 1];
        assert !EndsAt(chunks, r.isn, q - 1);
        assert q - 1 in r.taken <==> q in r.taken;
      }
      assert Fresh(r, q);
      if !Last(r.buf[q]) {
        AckedIsNext(r, chunks, q + 1, Some(r.readPos));
      }
    } else {
      FoundBeyond(r, q, start);
    }
  }

  lemma {:induction false} FoundBeyond(r: Rcv, q: int, start: Option<int>)
    ensures Search(r, q, start).Found? ==> q <= Search(r, q, start).hi <= Furthest(r)
    decreases Furthest(r) - q
  {
    if q <= Furthest(r) {
      if !Fresh(r, q) {
        FoundBeyond(r, q + 1, None);
      } else {
        FoundBeyond(r, q + 1, if First(r.buf[q]) then Some(q) else start);
      }
    }
  }

  // ----- Delivering -----

  lemma {:induction false} GatherIsFlatten(r: Rcv, chunks: seq<Chunk>, lo: int, hi: int)
    requires Holds(r, chunks) && r.isn <= lo <= hi + 1 <= r.isn + |chunks|
    requires forall i | lo <= i <= hi :: i in r.buf
    ensures Gather(r.buf, lo, hi) == Flatten(chunks[lo - r.isn..hi + 1 - r.isn])
    decreases hi - lo
  {
    if lo <= hi {
      GatherIsFlatten(r, chunks, lo + 1, hi);
      var part := chunks[lo - r.isn..hi + 1 - r.isn];
      assert part[1..] == chunks[lo + 1 - r.isn..hi + 1 - r.isn];
      assert part[0] == r.buf[lo];
    }
  }

  lemma FreshNotCovered(r: Rcv, chunks: seq<Chunk>, lo: int, hi: int, i: int)
    requires MsgInv(r, chunks) && Deliverable(r, chunks, lo, hi) && lo <= i <= hi
    ensures !Covered(r.messages, i)
  {
    hide IsFirst, IsLast, OrderFlag, Uniform, Framed, History, Covered;
    assert Fresh(r, i);
  }

  /** A fresh message was never returned: it is disjoint from all that were. */
  lemma FreshIsNew(r: Rcv, chunks: seq<Chunk>, lo: int, hi: int)
    requires MsgInv(r, chunks) && Deliverable(r, chunks, lo, hi)
    ensures forall j :: 0 <= j < |r.messages| ==> r.messages[j].hi < lo || hi < r.messages[j].lo
  {
    hide IsFirst, IsLast, OrderFlag, Uniform, Framed, Accounted;
    forall j | 0 <= j < |r.messages|
      ensures r.messages[j].hi < lo || hi < r.messages[j].lo
    {
      var m := r.messages[j];
      assert Returned(m, r.isn, chunks);
      if m.lo <= hi {
        FreshNotCovered(r, chunks, lo, hi, if m.lo < lo then lo else m.lo);
      }
    }
  }

  function NewMessage(r: Rcv, lo: int, hi: int, room: nat): Message {
    Message(lo, hi, room, Take(Gather(r.buf, lo, hi), room), hi >= r.lastAck)
  }

  lemma ReturnsMessage(r: Rcv, chunks: seq<Chunk>, lo: int, hi: int, room: nat)
    requires MsgInv(r, chunks) && Deliverable(r, chunks, lo, hi)
    ensures Returned(NewMessage(r, lo, hi, room), r.isn, chunks)
  {
    hide IsFirst, IsLast, OrderFlag, Uniform, Accounted, Framed, History;
    forall i | lo <= i <= hi
      ensures i in r.buf
    {
      assert Fresh(r, i);
    }
    GatherIsFlatten(r, chunks, lo, hi);
  }

  lemma DeliverHistory(r: Rcv, chunks: seq<Chunk>, lo: int, hi: int, room: nat)
    requires MsgInv(r, chunks) && Deliverable(r, chunks, lo, hi)
    requires hi < r.lastAck ==> lo == r.readPos
    ensures History(r.messages + [NewMessage(r, lo, hi, room)], r.isn, chunks)
  {
    hide IsFirst, IsLast, OrderFlag, Uniform, Framed, Returned, Deliverable, Covered, Holds;
    var m := NewMessage(r, lo, hi, room);
    var ms := r.messages + [m];
    FreshIsNew(r, chunks, lo, hi);
    ReturnsMessage(r, chunks, lo, hi, room);
    forall j, i | 0 <= j < |ms| && !ms[j].ahead && r.isn <= i < ms[j].lo
      ensures Covered(ms[..j], i)
    {
      if j < |r.messages| {
        assert ms[..j] == r.messages[..j];
      } else {
        assert ms[..j] == r.messages;
      }
    }
  }

  lemma CoveredSnoc(ms: seq<Message>, m: Message, i: int)
    ensures Covered(ms + [m], i) <==> Covered(ms, i) || m.lo <= i <= m.hi
  {
    var all := ms + [m];
    if Covered(ms, i) {
      var j :| 0 <= j < |ms| && ms[j].lo <= i <= ms[j].hi;
      assert all[j] == ms[j];
    }
    assert all[|ms|] == m;
  }

  lemma DeliverAccounted(r: Rcv, chunks: seq<Chunk>, lo: int, hi: int, room: nat)
    requires MsgInv(r, chunks) && Deliverable(r, chunks, lo, hi)
    requires hi < r.lastAck ==> lo == r.readPos
    ensures Accounted(Deliver(r, lo, hi, room))
  {
    hide IsFirst, IsLast, OrderFlag, Uniform, Framed, History, Covered;
    var r' := Deliver(r, lo, hi, room);
    forall i | r.isn <= i
      ensures Covered(r'.messages, i) <==> i < r'.readPos || i in r'.taken
    {
      CoveredSnoc(r.messages, NewMessage(r, lo, hi, room), i);
    }
  }

  lemma StartsAfterEnd(r: Rcv, chunks: seq<Chunk>, lo: int, hi: int)
    requires MsgInv(r, chunks) && Deliverable(r, chunks, lo, hi)
    ensures r.isn < lo ==> EndsAt(chunks, r.isn, lo - 1)
  {
    hide IsFirst, IsLast, OrderFlag, Uniform, History, Accounted;
  }

  lemma DeliverUniform(r: Rcv, chunks: seq<Chunk>, lo: int, hi: int, room: nat)
    requires MsgInv(r, chunks) && Deliverable(r, chunks, lo, hi)
    requires hi < r.lastAck ==> lo == r.readPos
    ensures Uniform(Deliver(r, lo, hi, room), chunks)
  {
    hide IsFirst, IsLast, OrderFlag, History, Accounted, Framed;
    var r' := Deliver(r, lo, hi, room);
    assert EndsAt(chunks, r.isn, hi);
    StartsAfterEnd(r, chunks, lo, hi);
    forall i | lo <= i <= hi
      ensures i in r.buf && i !in r.taken
    {
      assert Fresh(r, i);
    }
    forall i | r'.readPos <= i < r.isn + |chunks| && !EndsAt(chunks, r.isn, i)
      ensures i in r'.taken <==> i + 1 in r'.taken
    {
      assert i in r.taken <==> i + 1 in r.taken;
    }
  }

  lemma DeliverOrdered(r: Rcv, chunks: seq<Chunk>, lo: int, hi: int, room: nat)
    requires RcvOrdered(r) && MsgInv(r, chunks) && Deliverable(r, chunks, lo, hi) && r.notch == 0
    requires hi < r.lastAck ==> lo == r.readPos
    ensures RcvOrdered(Deliver(r, lo, hi, room))
  {
    hide IsFirst, IsLast, OrderFlag, History, Accounted, Uniform, Framed;
  }

  lemma DeliverKeeps(r: Rcv, chunks: seq<Chunk>, lo: int, hi: int, room: nat)
    requires RcvOrdered(r) && MsgInv(r, chunks) && Deliverable(r, chunks, lo, hi) && r.notch == 0
    requires hi < r.lastAck ==> lo == r.readPos
    ensures RcvOrdered(Deliver(r, lo, hi, room)) && MsgInv(Deliver(r, lo, hi, room), chunks)
  {
    hide IsFirst, IsLast, OrderFlag, History, Accounted, Uniform, Framed;
    DeliverHistory(r, chunks, lo, hi, room);
    DeliverAccounted(r, chunks, lo, hi, room);
    DeliverUniform(r, chunks, lo, hi, room);
    DeliverOrdered(r, chunks, lo, hi, room);
  }

  /** State of the buffer when the search begins. */
  lemma Skipped(r: Rcv, chunks: seq<Chunk>) returns (r1: Rcv)
    requires RcvOrdered(r) && MsgInv(r, chunks) && r.lastAck <= r.isn + |chunks| && r.notch == 0
    ensures r1 == Discard(r, SkipTo(r, r.readPos))
    ensures RcvOrdered(r1) && MsgInv(r1, chunks) && r1.loss == r.loss
    ensures r1.readPos < r1.lastAck ==> Fresh(r1, r1.readPos) && First(r1.buf[r1.readPos])
    ensures forall i :: Fresh(r1, i) <==> Fresh(r, i)
  {
    hide IsFirst, IsLast, OrderFlag, History, Accounted, Framed;
    SkipPassesOnlyRead(r, chunks, r.readPos);
    DiscardKeeps(r, chunks, SkipTo(r, r.readPos));
    r1 := Discard(r, SkipTo(r, r.readPos));
  }

  /** What the search of one readMsg call yields. */
  lemma Hit(r: Rcv, chunks: seq<Chunk>) returns (r1: Rcv, f: Found)
    requires RcvOrdered(r) && MsgInv(r, chunks) && r.lastAck <= r.isn + |chunks| && r.notch == 0
    ensures r1 == Discard(r, SkipTo(r, r.readPos)) && f == Search(r1, r1.readPos, None)
    ensures RcvOrdered(r1) && MsgInv(r1, chunks) && r1.loss == r.loss
    ensures f.Found? ==> Deliverable(r1, chunks, f.lo, f.hi) && (f.hi < r1.lastAck ==> f.lo == r1.readPos)
  {
    hide IsFirst, IsLast, OrderFlag, History, Accounted, Uniform, Framed;
    r1 := Skipped(r, chunks);
    f := Search(r1, r1.readPos, None);
    SearchSound(r1, chunks, r1.readPos, None);
    AckedIsNext(r1, chunks, r1.readPos, None);
  }

  lemma ReadMsgKeeps(r: Rcv, chunks: seq<Chunk>, room: nat)
    requires RcvInv(r) && MsgInv(r, chunks) && r.lastAck <= r.isn + |chunks| && r.notch == 0
    ensures RcvInv(ReadMsg(r, room)) && MsgInv(ReadMsg(r, room), chunks)
    ensures NextExpected(ReadMsg(r, room)) == NextExpected(r)
  {
    hide IsFirst, IsLast, OrderFlag, History, Accounted, Uniform, Framed, RcvOrdered, Deliverable;
    var r1, f := Hit(r, chunks);
    if f.Found? {
      DeliverKeeps(r1, chunks, f.lo, f.hi, room);
    }
  }

  /** One call returns a message exactly if some complete message may be handed out, except that a
      buffer holding at most one unacknowledged packet and nothing else is taken for empty. */
  lemma ReadMsgReturnsIff(r: Rcv, chunks: seq<Chunk>, room: nat)
    requires RcvInv(r) && MsgInv(r, chunks) && r.lastAck <= r.isn + |chunks| && r.notch == 0
    ensures |ReadMsg(r, room).messages| > |r.messages|
            <==> (exists lo, hi :: Deliverable(r, chunks, lo, hi)) && !(r.readPos == r.lastAck && r.curr <= r.lastAck)
  {
    hide IsFirst, IsLast, OrderFlag, History, Accounted, Uniform, Framed, RcvOrdered, Deliverable;
    var r1, f := Hit(r, chunks);
    SameDeliverable(r, chunks);
    if f.Found? {
      assert Deliverable(r, chunks, f.lo, f.hi);
    }
    if lo, hi :| Deliverable(r, chunks, lo, hi) {
      FreshFromReadPos(r1, chunks, lo, hi);
      SearchComplete(r1, chunks, r1.readPos, None, lo, hi);
    }
  }

  lemma FreshFromReadPos(r: Rcv, chunks: seq<Chunk>, lo: int, hi: int)
    requires Deliverable(r, chunks, lo, hi)
    ensures r.readPos <= lo <= hi
  {
  }

  lemma SameDeliverable(r: Rcv, chunks: seq<Chunk>)
    requires RcvOrdered(r) && MsgInv(r, chunks) && r.lastAck <= r.isn + |chunks| && r.notch == 0
    ensures
      forall lo, hi ::
        Deliverable(Discard(r, SkipTo(r, r.readPos)), chunks, lo, hi) <==> Deliverable(r, chunks, lo, hi)
  {
    hide IsFirst, IsLast, OrderFlag, History, Accounted, Framed, Uniform;
    var r1 := Skipped(r, chunks);
    forall lo, hi
      ensures Deliverable(r1, chunks, lo, hi) <==> Deliverable(r, chunks, lo, hi)
    {
      if Deliverable(r, chunks, lo, hi) {
        assert Fresh(r, lo) && Fresh(r1, lo);
      }
    }
  }

  /** Everything else about the receiver stays as it was. */
  lemma ReadMsgFrame(r: Rcv, room: nat)
    ensures
      var r' := ReadMsg(r, room);
      && r'.isn == r.isn && r'.bufSize == r.bufSize && r'.stream == r.stream && r'.curr == r.curr
      && r'.lastAck == r.lastAck && r'.lastAckAck == r.lastAckAck && r'.ackLog == r.ackLog
      && r'.loss == r.loss && r'.notch == r.notch && r'.out == r.out && r'.history == r.history
  {
  }

  /** Every packet that has been passed was part of a returned message. */
  lemma CoveredBefore(r: Rcv, chunks: seq<Chunk>, i: int)
    requires MsgInv(r, chunks)
    ensures r.isn <= i < r.readPos ==> Covered(r.messages, i)
  {
    hide Uniform, Framed, History, Holds, Covered;
  }

  lemma ReturnedAt(r: Rcv, chunks: seq<Chunk>, k: nat)
    requires MsgInv(r, chunks) && k < |r.messages|
    ensures Framed(chunks) && IsMessage(chunks, r.messages[k].lo - r.isn, r.messages[k].hi - r.isn)
  {
    hide Uniform, Framed, Accounted, Holds, IsMessage;
    assert Returned(r.messages[k], r.isn, chunks);
  }

  lemma MsgHolds(r: Rcv, chunks: seq<Chunk>)
    requires MsgInv(r, chunks)
    ensures Holds(r, chunks) && r.isn <= r.readPos <= r.isn + |chunks|
  {
  }

  lemma ReadMsgAdvances(r: Rcv, chunks: seq<Chunk>, room: nat)
    requires RcvInv(r) && MsgInv(r, chunks) && r.lastAck <= r.isn + |chunks| && r.notch == 0
    ensures ReadMsg(r, room).readPos >= r.readPos
  {
    hide IsFirst, IsLast, OrderFlag, History, Accounted, Uniform, Framed, RcvOrdered;
    var r1, f := Hit(r, chunks);
  }

  // ----- Reading until nothing is left -----

  /** Stored packets that were not read. */
  function Unread(r: Rcv): set<int> {
    set i | i in r.buf && i !in r.taken
  }

  /** No message ends among the acknowledged packets. */
  ghost predicate NoEnd(r: Rcv) {
    forall i | r.readPos <= i < r.lastAck :: i in r.buf && !Last(r.buf[i])
  }

  /** A call returns a message, or no acknowledged one is left. */
  lemma ReadMsgProgress(r: Rcv, chunks: seq<Chunk>, room: nat)
    requires RcvInv(r) && MsgInv(r, chunks) && r.lastAck <= r.isn + |chunks| && r.notch == 0
    ensures
      var r' := ReadMsg(r, room);
      && r' == r.(readPos := r'.readPos, buf := r'.buf, taken := r'.taken, messages := r'.messages)
      && if |r'.messages| > |r.messages| then
           && |r'.messages| == |r.messages| + 1 && r.messages <= r'.messages
           && r'.messages[|r.messages|].room == room && Unread(r') < Unread(r)
         else r'.messages == r.messages && NoEnd(r')
  {
    hide IsFirst, IsLast, OrderFlag, History, Accounted, Uniform, Framed, RcvOrdered, Deliverable, NoEnd;
    var r1, f := Hit(r, chunks);
    var r2 := Skipped(r, chunks);
    if f.Found? && Scan(r).1.Found? {
      UnreadLess(r, r1, chunks, f.lo, f.hi, room);
    } else if Scan(r).1.NotFound? {
      NothingLeft(r, chunks, room);
    }
  }

  lemma UnreadLess(r: Rcv, r1: Rcv, chunks: seq<Chunk>, lo: int, hi: int, room: nat)
    requires Deliverable(r1, chunks, lo, hi) && forall i :: Fresh(r1, i) <==> Fresh(r, i)
    ensures Unread(Deliver(r1, lo, hi, room)) < Unread(r)
  {
    hide IsFirst, IsLast, OrderFlag, Gather, Take;
    var r' := Deliver(r1, lo, hi, room);
    assert Fresh(r1, lo) && !Fresh(r', lo);
    forall i | i in Unread(r')
      ensures i in Unread(r)
    {
      assert Fresh(r', i) ==> Fresh(r1, i);
    }
    assert lo in Unread(r) && lo !in Unread(r');
  }

  lemma NothingLeft(r: Rcv, chunks: seq<Chunk>, room: nat)
    requires RcvInv(r) && MsgInv(r, chunks) && r.lastAck <= r.isn + |chunks| && r.notch == 0 && Scan(r).1.NotFound?
    ensures NoEnd(ReadMsg(r, room))
  {
    hide IsFirst, IsLast, OrderFlag, History, Accounted, Uniform, Framed, Deliverable, MsgInv;
    ReadMsgReturnsIff(r, chunks, room);
    if !(r.readPos == r.lastAck && r.curr <= r.lastAck) {
      var r1 := Skipped(r, chunks);
      SameDeliverable(r, chunks);
      forall i | r1.readPos <= i < r1.lastAck
        ensures i in r1.buf && !Last(r1.buf[i])
      {
        EndDelivers(r1, chunks, i);
      }
    }
  }

  lemma EndDelivers(r: Rcv, chunks: seq<Chunk>, i: int)
    requires RcvOrdered(r) && MsgInv(r, chunks) && r.lastAck <= r.isn + |chunks| && r.readPos <= i < r.lastAck
    requires Fresh(r, r.readPos) && First(r.buf[r.readPos])
    ensures i in r.buf && (Last(r.buf[i]) ==> exists hi :: Deliverable(r, chunks, r.readPos, hi))
  {
    hide IsFirst, IsLast, OrderFlag, MsgInv, Deliverable;
    if Last(r.buf[i]) {
      var hi := FirstEnd(r, chunks, r.readPos, i);
    }
  }

  lemma NoEndAt(r: Rcv, i: int)
    requires NoEnd(r)
    ensures r.readPos <= i < r.lastAck ==> i in r.buf && !Last(r.buf[i])
  {
  }

  /** The message at the reading position, if one ends among the acknowledged packets. */
  lemma {:induction false} FirstEnd(r: Rcv, chunks: seq<Chunk>, x: int, i: int) returns (hi: int)
    requires RcvOrdered(r) && MsgInv(r, chunks) && r.lastAck <= r.isn + |chunks|
    requires r.readPos <= x <= i < r.lastAck && i in r.buf && Last(r.buf[i])
    requires Fresh(r, r.readPos) && First(r.buf[r.readPos])
    requires x > r.readPos ==> Open(r, chunks, x, Some(r.readPos)) && !Last(r.buf[x - 1])
    ensures Deliverable(r, chunks, r.readPos, hi)
    decreases i - x
  {
    hide IsFirst, IsLast, OrderFlag, History, Accounted, Framed;
    if x > r.readPos {
      assert Fresh(r, x - 1) && !EndsAt(chunks, r.isn, x - 1);
    }
    assert Fresh(r, x);
    assert Open(r, chunks, x + 1, Some(r.readPos));
    if Last(r.buf[x]) {
      hi := x;
      OpenIsDeliverable(r, chunks, x, r.readPos);
    } else {
      hi := FirstEnd(r, chunks, x + 1, i);
    }
  }
}
